/** The abstraction learner: keyword mappings promoted from the categories of solved episodes. */
module KeywordLearning {
  import opened Wrappers
  import opened Ordering
  import opened RealFacts

  type Counts = seq<(string, nat)>

  datatype Role = Action | Resource | Error

  datatype Mapping = Mapping(
    keyword: string,
    concrete: string,
    abstractForm: string,
    role: Role,
    confidence: real,
    sourceCategory: string,
    promotedAt: nat)

  /** The built-in word lists and the spelling heuristics, as given predicates and functions. */
  datatype Words = Words(known: string -> bool, stop: string -> bool, errorLike: string -> bool,
                         concrete: string -> string)

  datatype Config = Config(words: Words, minEpisodes: nat, minPurity: real)

  // ----- counting -----

  function Total(counts: Counts): nat {
    if counts == [] then 0 else counts[0].1 + Total(counts[1..])
  }

  /** The count of the category, which never exceeds the total. */
  function CountFor(counts: Counts, category: string): (n: nat)
    ensures n <= Total(counts)
  {
    if counts == [] then 0
    else (if counts[0].0 == category then counts[0].1 else 0) + CountFor(counts[1..], category)
  }

  /** One more for the category, which is added at the end when it is new. */
  function Bumped(counts: Counts, category: string): Counts {
    if counts == [] then [(category, 1)]
    else if counts[0].0 == category then [(category, counts[0].1 + 1)] + counts[1..]
    else [counts[0]] + Bumped(counts[1..], category)
  }

  method Bump(counts: Counts, category: string) returns (r: Counts)
    ensures r == Bumped(counts, category)
  {
    r := counts;
    for i := 0 to |counts|
      invariant r == counts
      invariant Bumped(counts, category) == counts[..i] + Bumped(counts[i..], category)
    {
      assert counts[i..][0] == counts[i] && counts[i..][1..] == counts[i + 1..];
      if counts[i].0 == category {
        assert Bumped(counts[i..], category) == [(category, counts[i].1 + 1)] + counts[i + 1..];
        return counts[i := (category, counts[i].1 + 1)];
      }
    }
    r := r + [(category, 1)];
  }

  ghost predicate DistinctCategories(counts: Counts) {
    forall i, j | 0 <= i < j < |counts| :: counts[i].0 != counts[j].0
  }

  ghost predicate WellCounted(counts: Counts) {
    counts != [] && DistinctCategories(counts) && forall i | 0 <= i < |counts| :: counts[i].1 >= 1
  }

  ghost predicate HasCategory(counts: Counts, category: string) {
    exists i | 0 <= i < |counts| :: counts[i].0 == category
  }

  lemma {:induction false} BumpedCategories(counts: Counts, category: string, c: string)
    ensures HasCategory(Bumped(counts, category), c) ==> c == category || HasCategory(counts, c)
  {
    var r := Bumped(counts, category);
    if HasCategory(r, c) && c != category {
      var i :| 0 <= i < |r| && r[i].0 == c;
      if counts[0].0 != category && i > 0 {
        assert Bumped(counts[1..], category)[i - 1].0 == c;
        BumpedCategories(counts[1..], category, c);
        var j :| 0 <= j < |counts[1..]| && counts[1..][j].0 == c;
        assert counts[j + 1].0 == c;
      } else {
        assert counts[i].0 == c;
      }
    }
  }

  /** Counting adds one to the category, and nothing to any other. */
  lemma {:induction false} BumpedCounts(counts: Counts, category: string)
    requires DistinctCategories(counts) && forall i | 0 <= i < |counts| :: counts[i].1 >= 1
    ensures WellCounted(Bumped(counts, category)) && Total(Bumped(counts, category)) == Total(counts) + 1
    ensures forall c :: CountFor(Bumped(counts, category), c) == CountFor(counts, c) + if c == category then 1 else 0
  {
    var r := Bumped(counts, category);
    if counts == [] {
    } else if counts[0].0 == category {
      assert r[1..] == counts[1..];
    } else {
      var tail := Bumped(counts[1..], category);
      BumpedCounts(counts[1..], category);
      assert r[1..] == tail;
      forall i | 0 <= i < |tail| ensures tail[i].0 != counts[0].0 {
        if tail[i].0 == counts[0].0 {
          assert HasCategory(tail, counts[0].0);
          BumpedCategories(counts[1..], category, counts[0].0);
        }
      }
    }
  }

  predicate AllDigits(token: string) {
    forall i | 0 <= i < |token| :: '0' <= token[i] <= '9'
  }

  predicate IsPromoted(promoted: seq<Mapping>, token: string) {
    exists i | 0 <= i < |promoted| :: promoted[i].keyword == token
  }

  /** A token that is counted at all. */
  predicate IsCounted(words: Words, promoted: seq<Mapping>, token: string) {
    && !words.known(token)
    && !IsPromoted(promoted, token)
    && |token| >= 2
    && !AllDigits(token)
    && !words.stop(token)
  }

  type Table = map<string, Counts>

  function CountToken(table: Table, token: string, category: string): Table {
    table[token := Bumped(if token in table then table[token] else [], category)]
  }

  /** The table after the tokens of one episode; a token that occurs twice is counted twice. */
  function CountAll(table: Table, words: Words, promoted: seq<Mapping>, tokens: seq<string>, category: string): Table {
    if tokens == [] then table
    else
      var n := |tokens| - 1;
      var before := CountAll(table, words, promoted, tokens[..n], category);
      if IsCounted(words, promoted, tokens[n]) then CountToken(before, tokens[n], category) else before
  }

  // ----- runs -----

  /** An episode as it is counted: what was promoted before it, its tokens and its category. */
  datatype Episode = Episode(promoted: seq<Mapping>, tokens: seq<string>, category: string)

  /** The counts after a run of episodes. */
  function TableAfter(words: Words, run: seq<Episode>): Table {
    if run == [] then map[]
    else
      var e := run[|run| - 1];
      CountAll(TableAfter(words, run[..|run| - 1]), words, e.promoted, e.tokens, e.category)
  }

  function TotalOf(table: Table, token: string): nat {
    if token in table then Total(table[token]) else 0
  }

  function Multiplicity(tokens: seq<string>, token: string): nat {
    if tokens == [] then 0
    else Multiplicity(tokens[..|tokens| - 1], token) + if tokens[|tokens| - 1] == token then 1 else 0
  }

  /** The episode counts the token, once or more often. */
  predicate CountsIn(words: Words, e: Episode, token: string) {
    IsCounted(words, e.promoted, token) && Multiplicity(e.tokens, token) > 0
  }

  function EpisodesWith(words: Words, run: seq<Episode>, token: string): nat {
    if run == [] then 0
    else EpisodesWith(words, run[..|run| - 1], token) + if CountsIn(words, run[|run| - 1], token) then 1 else 0
  }

  /** No episode that counts the token contains it twice. */
  predicate NeverRepeated(words: Words, run: seq<Episode>, token: string) {
    forall i | 0 <= i < |run| && CountsIn(words, run[i], token) :: Multiplicity(run[i].tokens, token) == 1
  }

  lemma {:induction false} CountAllTotal(table: Table, words: Words, promoted: seq<Mapping>, tokens: seq<string>,
                                         category: string, token: string)
    requires WellKept(table)
    ensures TotalOf(CountAll(table, words, promoted, tokens, category), token) ==
            TotalOf(table, token) + if IsCounted(words, promoted, token) then Multiplicity(tokens, token) else 0
  {
    if tokens != [] {
      var n := |tokens| - 1;
      CountAllTotal(table, words, promoted, tokens[..n], category, token);
      CountAllKeeps(table, words, promoted, tokens[..n], category);
      var before := CountAll(table, words, promoted, tokens[..n], category);
      BumpedCounts(if tokens[n] in before then before[tokens[n]] else [], category);
    }
  }

  lemma {:induction false} TableAfterKept(words: Words, run: seq<Episode>)
    ensures WellKept(TableAfter(words, run))
  {
    if run != [] {
      var e := run[|run| - 1];
      TableAfterKept(words, run[..|run| - 1]);
      CountAllKeeps(TableAfter(words, run[..|run| - 1]), words, e.promoted, e.tokens, e.category);
    }
  }

  /**
    What the counts are, over every run: at least the number of episodes that counted the
    token, and exactly that number if and only if none of them contains it twice.
    */
  lemma {:induction false} CountIsEpisodesExactly(words: Words, run: seq<Episode>, token: string)
    ensures TotalOf(TableAfter(words, run), token) >= EpisodesWith(words, run, token)
    ensures TotalOf(TableAfter(words, run), token) == EpisodesWith(words, run, token) <==>
            NeverRepeated(words, run, token)
  {
    if run != [] {
      var n := |run| - 1;
      var e := run[n];
      CountIsEpisodesExactly(words, run[..n], token);
      TableAfterKept(words, run[..n]);
      CountAllTotal(TableAfter(words, run[..n]), words, e.promoted, e.tokens, e.category, token);
      assert forall i | 0 <= i < n :: run[..n][i] == run[i];
      assert NeverRepeated(words, run, token) <==>
             NeverRepeated(words, run[..n], token) &&
             (CountsIn(words, e, token) ==> Multiplicity(e.tokens, token) == 1);
    }
  }

  /** What the documentation promises of a promoted token holds of one that no episode repeats. */
  lemma PromotedAfterEpisodes(config: Config, run: seq<Episode>, m: Mapping, episodes: nat)
    requires Backed(config, TableAfter(config.words, run), m, episodes)
    requires NeverRepeated(config.words, run, m.keyword)
    ensures EpisodesWith(config.words, run, m.keyword) >= config.minEpisodes
  {
    CountIsEpisodesExactly(config.words, run, m.keyword);
  }

  lemma {:induction false} CountAllTracks(table: Table, words: Words, promoted: seq<Mapping>, tokens: seq<string>,
                                          category: string, token: string)
    ensures token in CountAll(table, words, promoted, tokens, category) <==>
            token in table || (token in tokens && IsCounted(words, promoted, token))
  {
    if tokens != [] {
      var n := |tokens| - 1;
      CountAllTracks(table, words, promoted, tokens[..n], category, token);
      assert tokens == tokens[..n] + [tokens[n]];
    }
  }

  predicate MentionsUnpromoted(e: Episode, token: string) {
    token in e.tokens && !IsPromoted(e.promoted, token)
  }

  /**
    The tokens with counts after a run are those that some episode contained before they
    were promoted, if they are no built-in or stop words, no single letters and no numbers.
    */
  lemma {:induction false} TrackedExactly(words: Words, run: seq<Episode>, token: string)
    ensures token in TableAfter(words, run) <==>
            && !words.known(token) && !words.stop(token) && |token| >= 2
            && (exists i | 0 <= i < |token| :: token[i] < '0' || token[i] > '9')
            && exists k | 0 <= k < |run| :: MentionsUnpromoted(run[k], token)
  {
    if run != [] {
      var n := |run| - 1;
      var e := run[n];
      TrackedExactly(words, run[..n], token);
      CountAllTracks(TableAfter(words, run[..n]), words, e.promoted, e.tokens, e.category, token);
      assert forall i | 0 <= i < n :: run[..n][i] == run[i];
      if MentionsUnpromoted(e, token) { assert MentionsUnpromoted(run[n], token); }
    }
  }

  // ----- candidates -----

  /** The largest count, and among equals the least name. */
  predicate Dominates(a: (string, nat), b: (string, nat)) {
    a.1 > b.1 || (a.1 == b.1 && StringLeq(a.0, b.0))
  }

  function Dominant(counts: Counts): (r: Option<(string, nat)>)
    ensures r.None? <==> counts == []
  {
    if counts == [] then None
    else
      var rest := Dominant(counts[1..]);
      if rest.None? || Dominates(counts[0], rest.value) then Some(counts[0]) else rest
  }

  lemma {:induction false} DominantIsLargest(counts: Counts)
    requires counts != []
    ensures exists i | 0 <= i < |counts| :: counts[i] == Dominant(counts).value
    ensures forall i | 0 <= i < |counts| :: Dominates(Dominant(counts).value, counts[i])
  {
    var tail := counts[1..];
    StringLeqReflexive(counts[0].0);
    if tail == [] {
      assert counts[0] == Dominant(counts).value;
    } else {
      DominantIsLargest(tail);
      var best := Dominant(tail).value;
      var k :| 0 <= k < |tail| && tail[k] == best;
      StringLeqTotal(counts[0].0, best.0);
      forall i | 0 <= i < |counts| ensures Dominates(Dominant(counts).value, counts[i]) {
        if i > 0 {
          assert Dominates(best, tail[i - 1]);
          if Dominates(counts[0], best) { DominatesTransitive(counts[0], best, counts[i]); }
        }
      }
      assert counts[0] == Dominant(counts).value || counts[k + 1] == Dominant(counts).value;
    }
  }

  lemma DominatesTransitive(a: (string, nat), b: (string, nat), c: (string, nat))
    requires Dominates(a, b) && Dominates(b, c)
    ensures Dominates(a, c)
  {
    if a.1 == b.1 == c.1 { StringLeqTransitive(a.0, b.0, c.0); }
  }

  /** At most a fifth of the appearances may be in other categories. */
  predicate Validates(counts: Counts, category: string) {
    var all := Total(counts);
    all > 0 && ((all - CountFor(counts, category)) as real / all as real) <= 0.2
  }

  const NETWORK_CATEGORIES := {"port_conflict", "connection_refused", "network_timeout"}

  function InferRole(words: Words, token: string, category: string): Role {
    if category in NETWORK_CATEGORIES then
      if |token| > 5 && !words.errorLike(token) then Resource else Error
    else if category == "disk_full" || category == "missing_file" then
      if |token| > 4 && !words.errorLike(token) then Resource else Error
    else Resource
  }

  function AbstractFor(category: string, role: Role): Option<string> {
    match role
    case Action => Some("process")
    case Resource =>
      if category in NETWORK_CATEGORIES then Some("network_service")
      else if category == "missing_file" then Some("file_system")
      else if category == "disk_full" then Some("storage")
      else if category == "credential_invalid" then Some("credential")
      else if category == "permission_denied" then Some("file_system")
      else if category == "startup_failure" then Some("service")
      else None
    case Error =>
      if category in NETWORK_CATEGORIES then Some("unavailable")
      else if category == "missing_file" then Some("resource_missing")
      else if category == "disk_full" then Some("capacity_exhausted")
      else if category == "permission_denied" then Some("permission_blocked")
      else if category == "credential_invalid" then Some("credential_invalid")
      else if category == "startup_failure" then Some("unavailable")
      else None
  }

  function Confidence(purity: real, total: nat): real {
    purity * (1.0 - 1.0 / (total as real + 1.0))
  }

  /** The mapping a token would be promoted to, if it meets every condition. */
  function Candidate(config: Config, token: string, counts: Counts, episode: nat): (r: Option<Mapping>)
    ensures r.Some? ==> r.value.keyword == token && r.value.promotedAt == episode
  {
    var total := Total(counts);
    if total < config.minEpisodes || counts == [] || total == 0 then None
    else
      var dominant := Dominant(counts).value;
      var purity := dominant.1 as real / total as real;
      var role := InferRole(config.words, token, dominant.0);
      if purity < config.minPurity || !Validates(counts, dominant.0) || AbstractFor(dominant.0, role).None? then None
      else Some(Mapping(token, config.words.concrete(token), AbstractFor(dominant.0, role).value, role,
                        Confidence(purity, total), dominant.0, episode))
  }

  /** Category, role and abstract form of everything that can be promoted. */
  const FORMS: set<(string, Role, string)> := {
    ("port_conflict", Resource, "network_service"), ("port_conflict", Error, "unavailable"),
    ("connection_refused", Resource, "network_service"), ("connection_refused", Error, "unavailable"),
    ("network_timeout", Resource, "network_service"), ("network_timeout", Error, "unavailable"),
    ("disk_full", Resource, "storage"), ("disk_full", Error, "capacity_exhausted"),
    ("missing_file", Resource, "file_system"), ("missing_file", Error, "resource_missing"),
    ("credential_invalid", Resource, "credential"), ("permission_denied", Resource, "file_system"),
    ("startup_failure", Resource, "service")}

  /**
    What a promoted token stands for: a symptom in the network and file categories when it
    reads like one or is short, and a resource otherwise; it is never an action.
    */
  lemma FormsExactly(config: Config, token: string, counts: Counts, episode: nat)
    requires Candidate(config, token, counts, episode).Some?
    ensures var m := Candidate(config, token, counts, episode).value;
            && (m.sourceCategory, m.role, m.abstractForm) in FORMS
            && (m.role == Error <==>
                  || (m.sourceCategory in {"port_conflict", "connection_refused", "network_timeout"} &&
                      (config.words.errorLike(token) || |token| <= 5))
                  || (m.sourceCategory in {"disk_full", "missing_file"} &&
                      (config.words.errorLike(token) || |token| <= 4)))
  {
    var category := Dominant(counts).value.0;
    var role := InferRole(config.words, token, category);
    assert (category, role, AbstractFor(category, role).value) in FORMS;
  }

  lemma {:induction false} CountForDistinct(counts: Counts, k: nat)
    requires DistinctCategories(counts) && k < |counts|
    ensures CountFor(counts, counts[k].0) == counts[k].1
  {
    if k == 0 {
      CountForAbsent(counts[1..], counts[0].0);
    } else {
      CountForDistinct(counts[1..], k - 1);
    }
  }

  lemma {:induction false} CountForAbsent(counts: Counts, category: string)
    requires forall i | 0 <= i < |counts| :: counts[i].0 != category
    ensures CountFor(counts, category) == 0
  {
    if counts != [] { CountForAbsent(counts[1..], category); }
  }

  /**
    The confidence of a promoted mapping is the dominant count over one more than the
    total: below the purity, and closer to it the more often the token was counted.
    */
  lemma ConfidenceExact(config: Config, token: string, counts: Counts, episode: nat)
    requires Candidate(config, token, counts, episode).Some?
    ensures counts != [] && Total(counts) > 0
    ensures var m := Candidate(config, token, counts, episode).value;
            && Times(m.confidence, Total(counts) as real + 1.0) == Dominant(counts).value.1 as real
            && (Dominant(counts).value.1 > 0 ==> 0.0 < m.confidence < Purity(counts))
  {
    hide Confidence, Times;
    ConfidenceValue(Dominant(counts).value.1 as real, Total(counts));
  }

  lemma ConfidenceValue(d: real, total: nat)
    requires d >= 0.0 && total > 0
    ensures var c := Confidence(d / total as real, total);
            Times(c, total as real + 1.0) == d && (d > 0.0 ==> 0.0 < c < d / total as real)
  {
    var n := total as real;
    var p, q := d / n, 1.0 / (n + 1.0);
    assert p * n == d && q * (n + 1.0) == 1.0;
    ConfidenceProduct(p, q, n);
    if d > 0.0 {
      assert p > 0.0 && 0.0 < q < 1.0;
      ConfidenceRange(p, q);
    }
  }

  lemma ConfidenceProduct(p: real, q: real, n: real)
    requires q * (n + 1.0) == 1.0
    ensures Times(p * (1.0 - q), n + 1.0) == p * n
  {
    assert (1.0 - q) * (n + 1.0) == n;
    TimesAssociates(p, 1.0 - q, n + 1.0);
  }

  lemma ConfidenceRange(p: real, q: real)
    requires p > 0.0 && 0.0 < q < 1.0
    ensures 0.0 < p * (1.0 - q) < p
  {
  }

  /** Of two mappings with equal purity, the one counted more often has the higher confidence. */
  lemma ConfidenceGrows(config: Config, s: string, a: Counts, t: string, b: Counts, i: nat, j: nat)
    requires Candidate(config, s, a, i).Some? && Candidate(config, t, b, j).Some?
    requires a != [] && b != [] && 0 < Total(a) < Total(b) && Purity(a) == Purity(b) > 0.0
    ensures Candidate(config, s, a, i).value.confidence < Candidate(config, t, b, j).value.confidence
  {
    hide Confidence;
    MoreIsSurer(Purity(a), Total(a), Total(b));
  }

  lemma MoreIsSurer(p: real, k: nat, n: nat)
    requires p > 0.0 && k < n
    ensures Confidence(p, k) < Confidence(p, n)
  {
    var q, r := 1.0 / (k as real + 1.0), 1.0 / (n as real + 1.0);
    InversesFall(k as real + 1.0, n as real + 1.0);
    assert p * (q - r) > 0.0;
  }

  lemma InversesFall(x: real, y: real)
    requires 0.0 < x < y
    ensures 1.0 / x > 1.0 / y
  {
    var q := 1.0 / y;
    assert q * y == 1.0 && q > 0.0;
    assert q * x < q * y;
  }

  function Purity(counts: Counts): real
    requires counts != [] && Total(counts) > 0
  {
    Dominant(counts).value.1 as real / Total(counts) as real
  }

  /**
    The validation step asks for a purity of 0.8 whatever the configured purity is: a token
    qualifies exactly when it is frequent enough, at least max(minPurity, 0.8) pure, and its
    category has an abstract form.
    */
  lemma QualifiesExactly(config: Config, token: string, counts: Counts, episode: nat)
    requires WellCounted(counts)
    ensures Total(counts) > 0
    ensures Candidate(config, token, counts, episode).Some?
       <==> && Total(counts) >= config.minEpisodes
            && Purity(counts) >= config.minPurity && Purity(counts) >= 0.8
            && var category := Dominant(counts).value.0;
               AbstractFor(category, InferRole(config.words, token, category)).Some?
  {
    DominantIsLargest(counts);
    var k :| 0 <= k < |counts| && counts[k] == Dominant(counts).value;
    CountForDistinct(counts, k);
    TotalPositive(counts);
    ValidationIsPurity(counts, counts[k].0);
  }

  lemma ValidationIsPurity(counts: Counts, category: string)
    requires Total(counts) > 0
    ensures Validates(counts, category) <==> CountFor(counts, category) as real / Total(counts) as real >= 0.8
  {
    var part := CountFor(counts, category);
    FractionComplement(part, Total(counts));
  }

  lemma {:induction false} TotalPositive(counts: Counts)
    requires counts != [] && forall i | 0 <= i < |counts| :: counts[i].1 >= 1
    ensures Total(counts) >= 1
  {
  }

  lemma FractionComplement(part: nat, all: nat)
    requires part <= all && all > 0
    ensures (all - part) as real / all as real <= 0.2 <==> part as real / all as real >= 0.8
  {
    QuotientSum(part as real, (all - part) as real, all as real);
  }

  lemma QuotientSum(p: real, q: real, a: real)
    requires a > 0.0 && p + q == a
    ensures p / a + q / a == 1.0
  {
    var x, y := p / a, q / a;
    assert x * a == p && y * a == q;
    assert (x + y - 1.0) * a == 0.0;
  }

  // ----- ranking -----

  function Priority(role: Role): nat {
    match role
    case Action => 0
    case Resource => 1
    case Error => 2
  }

  /** `compare_learned_mappings` is not greater. */
  predicate RanksBefore(a: Mapping, b: Mapping) {
    if a.confidence != b.confidence then a.confidence > b.confidence
    else if a.keyword != b.keyword then StringLeq(a.keyword, b.keyword)
    else if a.role != b.role then Priority(a.role) < Priority(b.role)
    else if a.sourceCategory != b.sourceCategory then StringLeq(a.sourceCategory, b.sourceCategory)
    else if a.abstractForm != b.abstractForm then StringLeq(a.abstractForm, b.abstractForm)
    else StringLeq(a.concrete, b.concrete)
  }

  predicate Ranked(ms: seq<Mapping>) {
    forall i, j | 0 <= i < j < |ms| :: RanksBefore(ms[i], ms[j])
  }

  predicate DistinctKeywords(ms: seq<Mapping>) {
    forall i, j | 0 <= i < j < |ms| :: ms[i].keyword != ms[j].keyword
  }

  lemma RanksTotal(a: Mapping, b: Mapping)
    ensures RanksBefore(a, b) || RanksBefore(b, a)
  {
    StringLeqTotal(a.keyword, b.keyword);
    StringLeqTotal(a.sourceCategory, b.sourceCategory);
    StringLeqTotal(a.abstractForm, b.abstractForm);
    StringLeqTotal(a.concrete, b.concrete);
  }

  /** On different keywords the order is decided by confidence and keyword alone. */
  lemma RanksTransitive(a: Mapping, b: Mapping, c: Mapping)
    requires RanksBefore(a, b) && RanksBefore(b, c)
    requires a.keyword != b.keyword && b.keyword != c.keyword && a.keyword != c.keyword
    ensures RanksBefore(a, c)
  {
    if a.confidence == b.confidence == c.confidence { StringLeqTransitive(a.keyword, b.keyword, c.keyword); }
  }

  function InsertRanked(m: Mapping, ms: seq<Mapping>): seq<Mapping> {
    if ms == [] then [m]
    else if RanksBefore(m, ms[0]) then [m] + ms
    else [ms[0]] + InsertRanked(m, ms[1..])
  }

  function Rank(ms: seq<Mapping>): seq<Mapping> {
    if ms == [] then [] else InsertRanked(ms[0], Rank(ms[1..]))
  }

  lemma {:induction false} InsertedMembers(m: Mapping, ms: seq<Mapping>)
    ensures multiset(InsertRanked(m, ms)) == multiset(ms) + multiset{m}
  {
    if ms != [] {
      assert ms == [ms[0]] + ms[1..];
      InsertedMembers(m, ms[1..]);
    }
  }

  /** All of ms come after m in the order, under other keywords. */
  ghost predicate Precedes(m: Mapping, ms: seq<Mapping>) {
    forall i | 0 <= i < |ms| :: RanksBefore(m, ms[i]) && m.keyword != ms[i].keyword
  }

  lemma PrependRanked(m: Mapping, ms: seq<Mapping>)
    requires Ranked(ms) && DistinctKeywords(ms) && Precedes(m, ms)
    ensures Ranked([m] + ms) && DistinctKeywords([m] + ms)
  {
  }

  lemma {:induction false} InsertedPrecedes(first: Mapping, m: Mapping, ms: seq<Mapping>)
    requires Precedes(first, ms) && RanksBefore(first, m) && first.keyword != m.keyword
    ensures Precedes(first, InsertRanked(m, ms))
  {
    if ms != [] && !RanksBefore(m, ms[0]) {
      InsertedPrecedes(first, m, ms[1..]);
    }
  }

  lemma {:induction false} InsertedRanked(m: Mapping, ms: seq<Mapping>)
    requires Ranked(ms) && DistinctKeywords(ms) && forall i | 0 <= i < |ms| :: ms[i].keyword != m.keyword
    ensures Ranked(InsertRanked(m, ms)) && DistinctKeywords(InsertRanked(m, ms))
  {
    if ms == [] {
    } else if RanksBefore(m, ms[0]) {
      forall j | 0 < j < |ms| ensures RanksBefore(m, ms[j]) { RanksTransitive(m, ms[0], ms[j]); }
      PrependRanked(m, ms);
    } else {
      var tail := ms[1..];
      assert forall i | 0 <= i < |tail| :: tail[i] == ms[i + 1];
      RanksTotal(m, ms[0]);
      InsertedRanked(m, tail);
      InsertedPrecedes(ms[0], m, tail);
      PrependRanked(ms[0], InsertRanked(m, tail));
    }
  }

  /** Ranking permutes mappings with different keywords into their order. */
  lemma {:induction false} RankExact(ms: seq<Mapping>)
    requires DistinctKeywords(ms)
    ensures Ranked(Rank(ms)) && DistinctKeywords(Rank(ms)) && multiset(Rank(ms)) == multiset(ms)
  {
    if ms != [] {
      RankExact(ms[1..]);
      var rest := Rank(ms[1..]);
      forall i | 0 <= i < |rest| ensures rest[i].keyword != ms[0].keyword {
        assert rest[i] in multiset(rest);
        assert rest[i] in ms[1..];
      }
      InsertedRanked(ms[0], rest);
      InsertedMembers(ms[0], rest);
      assert ms == [ms[0]] + ms[1..];
    }
  }

  /** So the surest mappings come first, and equally sure ones in the order of their names. */
  lemma SurestFirst(ms: seq<Mapping>, i: nat, j: nat)
    requires DistinctKeywords(ms) && i < j < |Rank(ms)|
    ensures var a, b := Rank(ms)[i], Rank(ms)[j];
            a.confidence > b.confidence || (a.confidence == b.confidence && StringLeq(a.keyword, b.keyword))
  {
    RankExact(ms);
  }

  // ----- the learner -----

  /** A promoted mapping whose frozen counts still give it. */
  ghost predicate Backed(config: Config, table: Table, m: Mapping, episodes: nat) {
    && m.keyword in table
    && m.promotedAt <= episodes
    && Candidate(config, m.keyword, table[m.keyword], m.promotedAt) == Some(m)
  }

  ghost predicate AllBacked(config: Config, table: Table, promoted: seq<Mapping>, episodes: nat) {
    forall i | 0 <= i < |promoted| :: Backed(config, table, promoted[i], episodes)
  }

  /** No tracked token that is not promoted meets the conditions. */
  ghost predicate NonePending(config: Config, table: Table, promoted: seq<Mapping>) {
    forall token | token in table && !IsPromoted(promoted, token) :: Candidate(config, token, table[token], 0).None?
  }

  ghost predicate WellKept(table: Table) {
    forall token | token in table :: WellCounted(table[token])
  }

  /** Counting an episode keeps the counts well formed and leaves promoted tokens alone. */
  lemma {:induction false} CountAllKeeps(table: Table, words: Words, promoted: seq<Mapping>, tokens: seq<string>,
                                         category: string)
    requires WellKept(table)
    ensures var after := CountAll(table, words, promoted, tokens, category);
            && WellKept(after)
            && forall t | t in table && IsPromoted(promoted, t) :: t in after && after[t] == table[t]
  {
    if tokens != [] {
      var n := |tokens| - 1;
      CountAllKeeps(table, words, promoted, tokens[..n], category);
      var before := CountAll(table, words, promoted, tokens[..n], category);
      BumpedCounts(if tokens[n] in before then before[tokens[n]] else [], category);
    }
  }

  lemma CountingKeepsBacked(config: Config, table: Table, promoted: seq<Mapping>, tokens: seq<string>,
                            category: string, episodes: nat)
    requires WellKept(table) && AllBacked(config, table, promoted, episodes)
    ensures var after := CountAll(table, config.words, promoted, tokens, category);
            WellKept(after) && AllBacked(config, after, promoted, episodes + 1)
  {
    var after := CountAll(table, config.words, promoted, tokens, category);
    CountAllKeeps(table, config.words, promoted, tokens, category);
    forall i | 0 <= i < |promoted| ensures Backed(config, after, promoted[i], episodes + 1) {
      assert Backed(config, table, promoted[i], episodes);
      assert IsPromoted(promoted, promoted[i].keyword);
    }
  }

  /** The mappings that a promotion round adds. */
  ghost predicate IsNew(config: Config, table: Table, promoted: seq<Mapping>, episodes: nat, m: Mapping) {
    && m.keyword in table && !IsPromoted(promoted, m.keyword)
    && Candidate(config, m.keyword, table[m.keyword], episodes) == Some(m)
  }

  lemma RankedTogether(promoted: seq<Mapping>, added: seq<Mapping>)
    requires DistinctKeywords(promoted) && DistinctKeywords(added)
    requires forall m | m in added :: !IsPromoted(promoted, m.keyword)
    ensures var r := Rank(promoted + Rank(added));
            && Ranked(r) && DistinctKeywords(r)
            && forall m :: m in r <==> m in promoted || m in added
  {
    RankExact(added);
    var sorted := Rank(added);
    forall m ensures m in sorted <==> m in added {
      assert m in multiset(sorted) <==> m in multiset(added);
    }
    forall i, j | 0 <= i < |promoted| && 0 <= j < |sorted| ensures promoted[i].keyword != sorted[j].keyword {
      assert sorted[j] in sorted;
    }
    RankExact(promoted + sorted);
    forall m ensures m in Rank(promoted + sorted) <==> m in promoted || m in added {
      assert m in multiset(Rank(promoted + sorted)) <==> m in multiset(promoted + sorted);
    }
  }

  /** After a promotion round everything promoted is backed and nothing is pending. */
  lemma RoundComplete(config: Config, table: Table, promoted: seq<Mapping>, r: seq<Mapping>, episodes: nat)
    requires AllBacked(config, table, promoted, episodes)
    requires forall m :: m in r <==> m in promoted || IsNew(config, table, promoted, episodes, m)
    ensures AllBacked(config, table, r, episodes) && NonePending(config, table, r)
  {
    forall i | 0 <= i < |r| ensures Backed(config, table, r[i], episodes) {
      if r[i] in promoted {
        var j :| 0 <= j < |promoted| && promoted[j] == r[i];
        assert Backed(config, table, promoted[j], episodes);
      } else {
        assert r[i] in r;
      }
    }
    forall token | token in table && !IsPromoted(r, token) ensures Candidate(config, token, table[token], 0).None? {
      forall i | 0 <= i < |promoted| ensures promoted[i].keyword != token {
        assert promoted[i] in r;
        KeywordIn(r, promoted[i]);
      }
      var candidate := Candidate(config, token, table[token], episodes);
      if candidate.Some? {
        KeywordIn(r, candidate.value);
      }
    }
  }

  lemma KeywordIn(r: seq<Mapping>, m: Mapping)
    requires m in r
    ensures IsPromoted(r, m.keyword)
  {
    var k :| 0 <= k < |r| && r[k] == m;
    assert r[k].keyword == m.keyword;
  }

  /** Without that the promise fails: one episode that repeats a token three times can promote it. */
  lemma OneEpisodeCanPromote(config: Config)
    requires config.minEpisodes == 3 && config.minPurity == 0.8
    requires !config.words.known("broker") && !config.words.stop("broker")
    ensures var run := [Episode([], ["broker", "broker", "broker"], "connection_refused")];
            var table := TableAfter(config.words, run);
            && EpisodesWith(config.words, run, "broker") <= 1
            && "broker" in table && Candidate(config, "broker", table["broker"], 1).Some?
  {
    var run := [Episode([], ["broker", "broker", "broker"], "connection_refused")];
    assert run[..0] == [] && TableAfter(config.words, []) == map[];
    assert EpisodesWith(config.words, run[..0], "broker") == 0;
    var w, c := config.words, "connection_refused";
    var none: seq<Mapping>, empty: Table := [], map[];
    assert !AllDigits("broker") by { assert "broker"[0] == 'b'; }
    assert IsCounted(w, none, "broker");
    var one, two, three := ["broker"], ["broker", "broker"], ["broker", "broker", "broker"];
    assert CountAll(empty, w, none, one[..0], c) == empty by { assert one[..0] == []; }
    assert two[..1] == one && three[..2] == two;
    assert Bumped([], c) == [(c, 1)] && Bumped([(c, 1)], c) == [(c, 2)] && Bumped([(c, 2)], c) == [(c, 3)];
    var t1 := CountAll(empty, w, none, one, c);
    assert t1 == CountToken(empty, "broker", c);
    var t2 := CountAll(empty, w, none, two, c);
    assert t2 == CountToken(t1, "broker", c);
    var t3 := CountAll(empty, w, none, three, c);
    assert t3 == CountToken(t2, "broker", c);
    assert t3["broker"] == [(c, 3)];
    assert Total([(c, 3)]) == 3 && Dominant([(c, 3)]) == Some((c, 3));
    assert CountFor([(c, 3)], c) == 3;
  }

  class AbstractionLearner {
    const config: Config
    var coOccurrence: Table
    var promoted: seq<Mapping>
    var totalEpisodes: nat
    /** The episodes recorded so far. */
    ghost var run: seq<Episode>

    /** What holds of a learner after every episode. */
    ghost predicate Valid()
      reads this
    {
      && WellKept(coOccurrence) && coOccurrence == TableAfter(config.words, run) && |run| == totalEpisodes
      && DistinctKeywords(promoted) && Ranked(promoted)
      && AllBacked(config, coOccurrence, promoted, totalEpisodes)
      && NonePending(config, coOccurrence, promoted)
    }

    constructor (config: Config)
      ensures Valid() && this.config == config
      ensures coOccurrence == map[] && promoted == [] && totalEpisodes == 0 && run == []
    {
      this.config := config;
      coOccurrence, promoted, totalEpisodes, run := map[], [], 0, [];
    }

    method RecordEpisode(tokens: seq<string>, category: string)
      requires Valid()
      modifies this
      ensures Valid() && totalEpisodes == old(totalEpisodes) + 1
      ensures run == old(run) + [Episode(old(promoted), tokens, category)]
      ensures coOccurrence == CountAll(old(coOccurrence), config.words, old(promoted), tokens, category)
      ensures forall m :: m in promoted <==>
                m in old(promoted) || IsNew(config, coOccurrence, old(promoted), totalEpisodes, m)
    {
      totalEpisodes := totalEpisodes + 1;
      for i := 0 to |tokens|
        invariant promoted == old(promoted) && totalEpisodes == old(totalEpisodes) + 1 && run == old(run)
        invariant coOccurrence == CountAll(old(coOccurrence), config.words, promoted, tokens[..i], category)
      {
        assert tokens[..i + 1][..i] == tokens[..i];
        if IsCounted(config.words, promoted, tokens[i]) {
          var entries := Bump(if tokens[i] in coOccurrence then coOccurrence[tokens[i]] else [], category);
          coOccurrence := coOccurrence[tokens[i] := entries];
        }
      }
      assert tokens[..|tokens|] == tokens;
      CountingKeepsBacked(config, old(coOccurrence), promoted, tokens, category, old(totalEpisodes));
      run := run + [Episode(promoted, tokens, category)];
      assert run[..|run| - 1] == old(run);
      TryPromote();
    }

    method TryPromote()
      requires WellKept(coOccurrence) && coOccurrence == TableAfter(config.words, run) && |run| == totalEpisodes
      requires DistinctKeywords(promoted)
      requires AllBacked(config, coOccurrence, promoted, totalEpisodes)
      modifies this`promoted
      ensures Valid()
      ensures forall m :: m in promoted <==>
                m in old(promoted) || IsNew(config, coOccurrence, old(promoted), totalEpisodes, m)
    {
      var toPromote: seq<Mapping> := [];
      var todo := coOccurrence.Keys;
      while todo != {}
        invariant todo <= coOccurrence.Keys
        invariant DistinctKeywords(toPromote)
        invariant forall m :: m in toPromote <==>
                    m.keyword !in todo && IsNew(config, coOccurrence, promoted, totalEpisodes, m)
        decreases |todo|
      {
        var token :| token in todo;
        todo := todo - {token};
        var candidate := Candidate(config, token, coOccurrence[token], totalEpisodes);
        if candidate.Some? && !IsPromoted(promoted, token) {
          toPromote := toPromote + [candidate.value];
        }
      }
      RankedTogether(promoted, toPromote);
      RoundComplete(config, coOccurrence, promoted, Rank(promoted + Rank(toPromote)), totalEpisodes);
      promoted := Rank(promoted + Rank(toPromote));
    }
  }
}
