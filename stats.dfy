/**
 * `CardStats` and `CardStats::update` (src/stats.rs): the per-card
 * aggregation behind the statistics screen. The clock, the `%Y-%m-%d`
 * rendering of a due date and the forgetting curve `calculate_recall` are
 * parameters. Timestamps are UTC instants counted in nanoseconds.
 */
module Stats {
  import opened Wrappers
  import opened Cards
  import opened Histograms

  type Timestamp = int

  const NanosPerSecond: nat := 1_000_000_000
  const SecondsPerDay: nat := 86_400
  const NanosPerDay: nat := SecondsPerDay * NanosPerSecond

  /** `CardLifeCycle`. */
  datatype CardLifeCycle = New | Young | Mature

  /** `MATURE_INTERVAL`: a reviewed card whose interval exceeds 21 days is mature. */
  const MatureInterval: real := 21.0

  /** The number of bins of both histograms (`Histogram<5>`). */
  const HistogramBins: nat := 5

  /**
   * The lifecycle stage `update` counts a card under. A card never reviewed
   * is New, whatever its interval; a reviewed card is Mature exactly when its
   * interval is above 21 days, so an interval of exactly 21 days is Young.
   */
  function Lifecycle(reviewCount: int, interval: real): (c: CardLifeCycle)
    ensures c == New <==> reviewCount == 0
    ensures c == Mature <==> reviewCount != 0 && interval > MatureInterval
    ensures c == Young <==> reviewCount != 0 && interval <= MatureInterval
  {
    if reviewCount == 0 then New
    else if interval > MatureInterval then Mature
    else Young
  }

  /** The number a counting map holds for `k`: absent keys count 0. */
  function Count<K>(m: map<K, nat>, k: K): nat {
    if k in m then m[k] else 0
  }

  /** `*m.entry(k).or_insert(0) += 1`. */
  function Bump<K>(m: map<K, nat>, k: K): (m': map<K, nat>)
    ensures m'.Keys == m.Keys + {k}
  {
    m[k := Count(m, k) + 1]
  }

  /** A bump adds one for its key and changes no other entry. */
  lemma BumpSpec<K>(m: map<K, nat>, k: K, j: K)
    ensures Count(Bump(m, k), j) == Count(m, j) + (if j == k then 1 else 0)
    ensures j != k ==> (j in Bump(m, k) <==> j in m) && (j in m ==> Bump(m, k)[j] == m[j])
  {
  }

  lemma BumpCommutes<K>(m: map<K, nat>, a: K, b: K)
    ensures Bump(Bump(m, a), b) == Bump(Bump(m, b), a)
  {
    if a != b {
      BumpSpec(m, a, b);
      BumpSpec(m, b, a);
    }
  }

  /** What a `CardStats` holds. */
  datatype StatsValue = StatsValue(
    totalCardsInDb: int,
    numCards: int,
    cardLifecycles: map<CardLifeCycle, nat>,
    dueCards: int,
    upcomingWeek: map<string, nat>,
    upcomingMonth: int,
    filePaths: map<string, nat>,
    difficulty: HistogramValue,
    retrievability: HistogramValue)

  /** `CardStats::default`: every counter zero, every map empty, both histograms empty. */
  function DefaultStats(): (s: StatsValue)
    ensures s.totalCardsInDb == 0 && s.numCards == 0 && s.dueCards == 0 && s.upcomingMonth == 0
    ensures s.cardLifecycles == map[] && s.upcomingWeek == map[] && s.filePaths == map[]
    ensures |s.difficulty.bins| == HistogramBins && |s.retrievability.bins| == HistogramBins
    ensures Balanced(s.difficulty) && Balanced(s.retrievability)
    ensures s.difficulty.count == 0 && s.retrievability.count == 0
  {
    EmptyIsBalanced(HistogramBins);
    StatsValue(0, 0, map[], 0, map[], 0, map[], EmptyHistogram(HistogramBins), EmptyHistogram(HistogramBins))
  }

  /** Both histograms have bins to count in. */
  predicate HasBins(s: StatsValue) {
    |s.difficulty.bins| > 0 && |s.retrievability.bins| > 0
  }

  /** The review data `update` receives with each card. */
  datatype Review = Review(
    reviewCount: int,
    dueDate: Option<Timestamp>,
    interval: real,
    difficulty: real,
    stability: real,
    lastReviewedAt: Option<Timestamp>)

  /** The environment `update` reads: the clock, the day rendering of a due date, the recall curve. */
  datatype Env = Env(now: Timestamp, dayKey: Timestamp -> string, recall: (real, real) -> real)

  /** Integer division truncating toward zero, as `Duration::num_seconds` rounds. */
  function TruncDiv(a: int, b: nat): (q: int)
    requires b > 0
    ensures a >= 0 ==> 0 <= q && q * b <= a < q * b + b
    ensures a < 0 ==> q <= 0 && q * b - b < a <= q * b
  {
    if a >= 0 then a / b else -((-a) / b)
  }

  /** Whole seconds elapsed since `last`, as a number of days (possibly negative). */
  function ElapsedDays(now: Timestamp, last: Timestamp): real {
    (TruncDiv(now - last, NanosPerSecond) as real) / (SecondsPerDay as real)
  }

  /** A review a whole number of days ago is exactly that many days old. */
  lemma ElapsedWholeDays(now: Timestamp, last: Timestamp, d: int)
    requires now - last == d * NanosPerDay
    ensures ElapsedDays(now, last) == d as real
  {
    var q := TruncDiv(now - last, NanosPerSecond);
    assert now - last == (d * SecondsPerDay) * NanosPerSecond;
    assert q == d * SecondsPerDay by {
      if d >= 0 {
        assert (d * SecondsPerDay * NanosPerSecond) / NanosPerSecond == d * SecondsPerDay;
      } else {
        assert ((-d) * SecondsPerDay * NanosPerSecond) / NanosPerSecond == (-d) * SecondsPerDay;
      }
    }
  }

  /** `f64::max(0.0)`. */
  function AtLeastZero(x: real): (r: real)
    ensures r >= 0.0 && r >= x && (r == x || r == 0.0)
  {
    if x < 0.0 then 0.0 else x
  }

  /** `due_cards`: a card with no due date, or one at or before now, is due. */
  function DueCards(n: int, dueDate: Option<Timestamp>, env: Env): int {
    if dueDate.None? || dueDate.value <= env.now then n + 1 else n
  }

  /** `upcoming_week`: a card due after now and within 7 days counts for its day. */
  function UpcomingWeek(m: map<string, nat>, dueDate: Option<Timestamp>, env: Env): map<string, nat> {
    if dueDate.Some? && env.now < dueDate.value <= env.now + 7 * NanosPerDay then Bump(m, env.dayKey(dueDate.value)) else m
  }

  /** `upcoming_month`: a card due after now and within 30 days counts for the month. */
  function UpcomingMonth(n: int, dueDate: Option<Timestamp>, env: Env): int {
    if dueDate.Some? && env.now < dueDate.value <= env.now + 30 * NanosPerDay then n + 1 else n
  }

  /** The value the retrievability histogram receives for a card last reviewed at `last`. */
  function Retrievability(last: Timestamp, stability: real, env: Env): real {
    env.recall(AtLeastZero(ElapsedDays(env.now, last)), stability)
  }

  /** The retrievability histogram after a card last reviewed at `lastReviewedAt`, if ever. */
  function RecordRecall(h: HistogramValue, lastReviewedAt: Option<Timestamp>, stability: real, env: Env): HistogramValue
    requires |h.bins| > 0
  {
    match lastReviewedAt
    case None => h
    case Some(last) => Observe(h, Retrievability(last, stability, env))
  }

  /** `CardStats::update` on values: each field takes its own increment. */
  function Step(s: StatsValue, path: string, r: Review, env: Env): (t: StatsValue)
    requires HasBins(s)
    ensures HasBins(t)
    ensures t.totalCardsInDb == s.totalCardsInDb && t.numCards == s.numCards
  {
    StatsValue(
      s.totalCardsInDb,
      s.numCards,
      Bump(s.cardLifecycles, Lifecycle(r.reviewCount, r.interval)),
      DueCards(s.dueCards, r.dueDate, env),
      UpcomingWeek(s.upcomingWeek, r.dueDate, env),
      UpcomingMonth(s.upcomingMonth, r.dueDate, env),
      Bump(s.filePaths, path),
      Observe(s.difficulty, r.difficulty / 10.0),
      RecordRecall(s.retrievability, r.lastReviewedAt, r.stability, env))
  }

  /** The card's file gains one card; every other file keeps its count. */
  lemma StepFilePaths(s: StatsValue, path: string, r: Review, env: Env, p: string)
    requires HasBins(s)
    ensures Count(Step(s, path, r, env).filePaths, p) == Count(s.filePaths, p) + (if p == path then 1 else 0)
    ensures Step(s, path, r, env).filePaths.Keys == s.filePaths.Keys + {path}
  {
    BumpSpec(s.filePaths, path, p);
  }

  /** Exactly one lifecycle counter, the card's, goes up by one. */
  lemma StepLifecycle(s: StatsValue, path: string, r: Review, env: Env, c: CardLifeCycle)
    requires HasBins(s)
    ensures Count(Step(s, path, r, env).cardLifecycles, c)
      == Count(s.cardLifecycles, c) + (if c == Lifecycle(r.reviewCount, r.interval) then 1 else 0)
  {
    BumpSpec(s.cardLifecycles, Lifecycle(r.reviewCount, r.interval), c);
  }

  /**
   * Due-date buckets: no due date, or one at or before now, counts as due and
   * nothing else; one within a week counts for its day and for the month; one
   * within 30 days counts for the month only; a later one counts nowhere.
   */
  lemma StepDue(s: StatsValue, path: string, r: Review, env: Env)
    requires HasBins(s)
    ensures var t := Step(s, path, r, env);
      var week := env.now + 7 * NanosPerDay;
      var month := env.now + 30 * NanosPerDay;
      && (r.dueDate.None? || r.dueDate.value <= env.now ==>
            t.dueCards == s.dueCards + 1 && t.upcomingWeek == s.upcomingWeek && t.upcomingMonth == s.upcomingMonth)
      && (r.dueDate.Some? && env.now < r.dueDate.value <= week ==>
            t.dueCards == s.dueCards && t.upcomingWeek == Bump(s.upcomingWeek, env.dayKey(r.dueDate.value))
            && t.upcomingMonth == s.upcomingMonth + 1)
      && (r.dueDate.Some? && week < r.dueDate.value <= month ==>
            t.dueCards == s.dueCards && t.upcomingWeek == s.upcomingWeek && t.upcomingMonth == s.upcomingMonth + 1)
      && (r.dueDate.Some? && month < r.dueDate.value ==>
            t.dueCards == s.dueCards && t.upcomingWeek == s.upcomingWeek && t.upcomingMonth == s.upcomingMonth)
  {
  }

  /**
   * Every card feeds its difficulty, scaled to `[0, 1]` by `/ 10`, to the
   * difficulty histogram; only a card reviewed before feeds its recall, at
   * the non-negative number of days since that review, to the other.
   */
  lemma StepHistograms(s: StatsValue, path: string, r: Review, env: Env)
    requires HasBins(s)
    ensures var t := Step(s, path, r, env);
      && t.difficulty == Observe(s.difficulty, r.difficulty / 10.0)
      && (r.lastReviewedAt.None? ==> t.retrievability == s.retrievability)
      && (r.lastReviewedAt.Some? ==>
            t.retrievability == Observe(s.retrievability,
              env.recall(AtLeastZero(ElapsedDays(env.now, r.lastReviewedAt.value)), r.stability)))
  {
  }

  /** Both histograms stay balanced: their bins always add up to their counts. */
  lemma StepKeepsBalance(s: StatsValue, path: string, r: Review, env: Env)
    requires HasBins(s) && Balanced(s.difficulty) && Balanced(s.retrievability)
    ensures Balanced(Step(s, path, r, env).difficulty) && Balanced(Step(s, path, r, env).retrievability)
  {
    ObserveSpec(s.difficulty, r.difficulty / 10.0);
    if r.lastReviewedAt.Some? {
      ObserveSpec(s.retrievability, Retrievability(r.lastReviewedAt.value, r.stability, env));
    }
  }

  lemma UpcomingWeekCommutes(m: map<string, nat>, d1: Option<Timestamp>, d2: Option<Timestamp>, env: Env)
    ensures UpcomingWeek(UpcomingWeek(m, d1, env), d2, env) == UpcomingWeek(UpcomingWeek(m, d2, env), d1, env)
  {
    if d1.Some? && d2.Some? {
      BumpCommutes(m, env.dayKey(d1.value), env.dayKey(d2.value));
    }
  }

  lemma RecordRecallCommutes(h: HistogramValue, r1: Review, r2: Review, env: Env)
    requires |h.bins| > 0
    ensures RecordRecall(RecordRecall(h, r1.lastReviewedAt, r1.stability, env), r2.lastReviewedAt, r2.stability, env)
      == RecordRecall(RecordRecall(h, r2.lastReviewedAt, r2.stability, env), r1.lastReviewedAt, r1.stability, env)
  {
    if r1.lastReviewedAt.Some? && r2.lastReviewedAt.Some? {
      ObserveCommutes(h,
        Retrievability(r1.lastReviewedAt.value, r1.stability, env),
        Retrievability(r2.lastReviewedAt.value, r2.stability, env));
    }
  }

  /** With the clock fixed, the order in which cards are counted does not matter. */
  lemma StepCommutes(s: StatsValue, p1: string, r1: Review, p2: string, r2: Review, env: Env)
    requires HasBins(s)
    ensures Step(Step(s, p1, r1, env), p2, r2, env) == Step(Step(s, p2, r2, env), p1, r1, env)
  {
    BumpCommutes(s.filePaths, p1, p2);
    BumpCommutes(s.cardLifecycles, Lifecycle(r1.reviewCount, r1.interval), Lifecycle(r2.reviewCount, r2.interval));
    UpcomingWeekCommutes(s.upcomingWeek, r1.dueDate, r2.dueDate, env);
    ObserveCommutes(s.difficulty, r1.difficulty / 10.0, r2.difficulty / 10.0);
    RecordRecallCommutes(s.retrievability, r1, r2, env);
  }

  class CardStats {
    var totalCardsInDb: int
    var numCards: int
    var cardLifecycles: map<CardLifeCycle, nat>
    var dueCards: int
    var upcomingWeek: map<string, nat>
    var upcomingMonth: int
    var filePaths: map<string, nat>
    const difficultyHistogram: Histogram
    const retrievabilityHistogram: Histogram

    /** The two histograms are separate objects with separate bins, each with at least one bin. */
    ghost predicate Valid()
      reads this, difficultyHistogram, retrievabilityHistogram
    {
      && difficultyHistogram != retrievabilityHistogram
      && difficultyHistogram.bins != retrievabilityHistogram.bins
      && difficultyHistogram.bins.Length > 0
      && retrievabilityHistogram.bins.Length > 0
    }

    function Value(): StatsValue
      reads this, difficultyHistogram, retrievabilityHistogram, difficultyHistogram.bins, retrievabilityHistogram.bins
    {
      StatsValue(totalCardsInDb, numCards, cardLifecycles, dueCards, upcomingWeek, upcomingMonth, filePaths,
                 difficultyHistogram.Value(), retrievabilityHistogram.Value())
    }

    /** `CardStats::default()`. */
    constructor()
      ensures Valid() && Value() == DefaultStats()
      ensures fresh(difficultyHistogram) && fresh(retrievabilityHistogram)
      ensures fresh(difficultyHistogram.bins) && fresh(retrievabilityHistogram.bins)
    {
      totalCardsInDb, numCards, dueCards, upcomingMonth := 0, 0, 0, 0;
      cardLifecycles, upcomingWeek, filePaths := map[], map[], map[];
      difficultyHistogram := new Histogram(HistogramBins);
      retrievabilityHistogram := new Histogram(HistogramBins);
    }

    /** `CardStats::update`, with the clock reading `env.now`. */
    method Update(card: Card, reviewCount: int, dueDate: Option<Timestamp>, interval: real,
                  difficulty: real, stability: real, lastReviewedAt: Option<Timestamp>, env: Env)
      requires Valid()
      modifies this, difficultyHistogram, retrievabilityHistogram, difficultyHistogram.bins, retrievabilityHistogram.bins
      ensures Valid()
      ensures Value() == Step(old(Value()), card.filePath,
                              Review(reviewCount, dueDate, interval, difficulty, stability, lastReviewedAt), env)
    {
      ghost var before := Value();
      ghost var review := Review(reviewCount, dueDate, interval, difficulty, stability, lastReviewedAt);
      CountCard(card.filePath, reviewCount, dueDate, interval, env);
      difficultyHistogram.Update(difficulty / 10.0);
      assert retrievabilityHistogram.Value() == before.retrievability;
      if lastReviewedAt.None? {
        assert Value() == Step(before, card.filePath, review, env);
        return;
      }
      var elapsedDays := ElapsedDays(env.now, lastReviewedAt.value);
      var retrievability := env.recall(AtLeastZero(elapsedDays), stability);
      ghost var afterDifficulty := difficultyHistogram.Value();
      retrievabilityHistogram.Update(retrievability);
      assert difficultyHistogram.Value() == afterDifficulty;
    }

    /** The counting half of `update`: the file, the lifecycle stage and the due-date buckets. */
    method CountCard(path: string, reviewCount: int, dueDate: Option<Timestamp>, interval: real, env: Env)
      modifies this
      ensures filePaths == Bump(old(filePaths), path)
      ensures cardLifecycles == Bump(old(cardLifecycles), Lifecycle(reviewCount, interval))
      ensures dueCards == DueCards(old(dueCards), dueDate, env)
      ensures upcomingWeek == UpcomingWeek(old(upcomingWeek), dueDate, env)
      ensures upcomingMonth == UpcomingMonth(old(upcomingMonth), dueDate, env)
      ensures totalCardsInDb == old(totalCardsInDb) && numCards == old(numCards)
    {
      var now := env.now;
      var weekHorizon := now + 7 * NanosPerDay;
      var monthHorizon := now + 30 * NanosPerDay;
      filePaths := Bump(filePaths, path);
      cardLifecycles := Bump(cardLifecycles, Lifecycle(reviewCount, interval));

      match dueDate {
        case None =>
          dueCards := dueCards + 1;
        case Some(due) =>
          if due <= now {
            dueCards := dueCards + 1;
          } else {
            if due <= weekHorizon {
              upcomingWeek := Bump(upcomingWeek, env.dayKey(due));
            }
            if due <= monthHorizon {
              upcomingMonth := upcomingMonth + 1;
            }
          }
      }
    }
  }
}
