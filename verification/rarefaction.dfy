/** What one single pass over the reads computes for every sampling rate,
    stated on values: the lockstep pairing of the two Kraken streams, the
    dictionary update of one read, and the read counts and distinct taxa of
    the sample at a given rate. The imperative pass in module Krakefaction is
    proved against these definitions. */
module Rarefaction {
  import opened Wrappers
  import opened Ranks
  import opened Tokens

  /** Taxon token to the number of times it was observed. */
  type Dictionary = map<string, nat>

  // ---------------------------------------------------------------------
  // Updating one dictionary with one rank path
  // ---------------------------------------------------------------------

  /** One observation of `token`: inserted with count 1, or incremented. */
  function Observe(d: Dictionary, token: string): Dictionary
  {
    if token in d then d[token := d[token] + 1] else d[token := 1]
  }

  /** The dictionary after scanning `rankings` for tokens of rank `rank`,
      token by token. */
  function UpdatedDictionary(d: Dictionary, rankings: seq<string>, rank: Rank): Dictionary
    decreases |rankings|
  {
    if rankings == [] then d
    else
      var n := |rankings| - 1;
      var prev := UpdatedDictionary(d, rankings[..n], rank);
      if Matches(rankings[n], rank) then Observe(prev, rankings[n]) else prev
  }

  /** The count of `k` in `d`, zero when absent. */
  function CountOf(d: Dictionary, k: string): nat
  {
    if k in d then d[k] else 0
  }

  /** The tokens of `rankings` that carry the prefix of `rank`. */
  function MatchingTokens(rankings: seq<string>, rank: Rank): set<string>
  {
    set t | t in rankings && Matches(t, rank)
  }

  /** A key is present afterwards iff it was before or is a matching token of
      the path; a matching key's count grows by its number of occurrences in
      the path, every other key keeps its count. */
  lemma {:induction false} UpdatedDictionaryCounts(d: Dictionary, rankings: seq<string>, rank: Rank, k: string)
    ensures k in UpdatedDictionary(d, rankings, rank) <==> k in d || (k in rankings && Matches(k, rank))
    ensures CountOf(UpdatedDictionary(d, rankings, rank), k)
         == CountOf(d, k) + (if Matches(k, rank) then multiset(rankings)[k] else 0)
    decreases |rankings|
  {
    if rankings != [] {
      var n := |rankings| - 1;
      UpdatedDictionaryCounts(d, rankings[..n], rank, k);
      assert rankings == rankings[..n] + [rankings[n]];
      assert multiset(rankings) == multiset(rankings[..n]) + multiset{rankings[n]};
      assert k in rankings <==> k in rankings[..n] || k == rankings[n];
    }
  }

  /** Repeated tokens never grow the key set: the keys afterwards are the keys
      before plus the distinct matching tokens of the path. */
  lemma {:induction false} UpdatedDictionaryKeys(d: Dictionary, rankings: seq<string>, rank: Rank)
    ensures UpdatedDictionary(d, rankings, rank).Keys == d.Keys + MatchingTokens(rankings, rank)
  {
    forall k | k in UpdatedDictionary(d, rankings, rank).Keys + d.Keys + MatchingTokens(rankings, rank)
      ensures k in UpdatedDictionary(d, rankings, rank).Keys <==> k in d.Keys + MatchingTokens(rankings, rank)
    {
      UpdatedDictionaryCounts(d, rankings, rank, k);
    }
  }

  /** Every key added by an update carries the rank's prefix and every count
      stays positive. */
  predicate RankDictionary(d: Dictionary, rank: Rank)
  {
    forall k :: k in d ==> Matches(k, rank) && d[k] >= 1
  }

  lemma {:induction false} UpdatedDictionaryKeepsRank(d: Dictionary, rankings: seq<string>, rank: Rank)
    requires RankDictionary(d, rank)
    ensures RankDictionary(UpdatedDictionary(d, rankings, rank), rank)
  {
    var d' := UpdatedDictionary(d, rankings, rank);
    forall k | k in d' ensures Matches(k, rank) && d'[k] >= 1 {
      UpdatedDictionaryCounts(d, rankings, rank, k);
      if k in d {
        assert d[k] >= 1;
      } else {
        assert k in rankings && Matches(k, rank);
        assert multiset(rankings)[k] >= 1;
      }
    }
  }

  // ---------------------------------------------------------------------
  // Pairing the two Kraken streams in lockstep
  // ---------------------------------------------------------------------

  datatype ReadRecord = Unclassified | Classified(rankings: seq<string>)

  /** `tokens[0]` or `tokens[1]` of the translation of read `read` does not
      exist: the translated line had only `tokens` tokens (zero when the
      translated stream was already exhausted). */
  datatype PassError = MalformedTranslation(read: nat, tokens: nat)

  /** The primary line's first character is the classified marker "C". */
  predicate IsClassified(line: string)
  {
    line != [] && line[0] == 'C'
  }

  /** The number of classified lines. */
  function ClassifiedCount(primary: seq<string>): nat
    decreases |primary|
  {
    if primary == [] then 0
    else
      var n := |primary| - 1;
      ClassifiedCount(primary[..n]) + (if IsClassified(primary[n]) then 1 else 0)
  }

  /** `readline()` on the translated stream after `cursor` lines were read:
      the empty string once the stream is exhausted. */
  function ReadLine(translated: seq<string>, cursor: nat): string
  {
    if cursor < |translated| then translated[cursor] else ""
  }

  /** The rank path of one translated line, or the number of tokens it had
      when that is fewer than two. */
  function Translate(line: string): Result<seq<string>, nat>
  {
    var tokens := Words(line);
    if |tokens| < 2 then Failure(|tokens|) else Success(Split(tokens[1], '|'))
  }

  /** A well-formed translated record, a read identifier, a tab, the rank
      path joined with "|" and a line end, yields exactly its rank path. */
  lemma TranslateRecord(id: string, ranks: seq<string>)
    requires id != [] && NoSpace(id)
    requires |ranks| >= 1 && forall p :: p in ranks ==> '|' !in p
    requires Join(ranks, '|') != [] && NoSpace(Join(ranks, '|'))
    ensures Translate(id + ['\t'] + Join(ranks, '|') + ['\n']) == Success(ranks)
  {
    WordsOfRecord(id, '\t', Join(ranks, '|'), '\n');
    SplitJoin(ranks, '|');
  }

  /** The read records of the primary lines: the translated stream advances
      once per classified line and never otherwise. */
  function Pair(primary: seq<string>, translated: seq<string>): (r: Result<seq<ReadRecord>, PassError>)
    ensures r.Success? ==> |r.value| == |primary|
    ensures r.Success? ==> forall i :: 0 <= i < |primary| ==> (r.value[i].Classified? <==> IsClassified(primary[i]))
    ensures r.Failure? ==> r.error.read < |primary| && IsClassified(primary[r.error.read]) && r.error.tokens < 2
    ensures r.Failure? ==>
      Translate(ReadLine(translated, ClassifiedCount(primary[..r.error.read]))) == Failure(r.error.tokens)
    decreases |primary|
  {
    if primary == [] then Success([])
    else
      var n := |primary| - 1;
      match Pair(primary[..n], translated)
      case Failure(e) =>
        assert primary[..n][..e.read] == primary[..e.read];
        Failure(e)
      case Success(recs) =>
        if IsClassified(primary[n]) then
          match Translate(ReadLine(translated, ClassifiedCount(primary[..n])))
          case Failure(found) => Failure(MalformedTranslation(n, found))
          case Success(rankings) => Success(recs + [Classified(rankings)])
        else
          Success(recs + [Unclassified])
  }

  /** One more primary line: the cursor advances exactly on a classified
      line, and the pairing extends by that line's record or stops at it. */
  lemma PairStep(primary: seq<string>, translated: seq<string>, i: nat)
    requires i < |primary| && Pair(primary[..i], translated).Success?
    ensures ClassifiedCount(primary[..i + 1])
      == ClassifiedCount(primary[..i]) + (if IsClassified(primary[i]) then 1 else 0)
    ensures !IsClassified(primary[i]) ==>
      Pair(primary[..i + 1], translated) == Success(Pair(primary[..i], translated).value + [Unclassified])
    ensures IsClassified(primary[i]) ==>
      var t := Translate(ReadLine(translated, ClassifiedCount(primary[..i])));
      Pair(primary[..i + 1], translated)
        == if t.Failure? then Failure(MalformedTranslation(i, t.error))
           else Success(Pair(primary[..i], translated).value + [Classified(t.value)])
  {
    assert primary[..i + 1][..i] == primary[..i];
  }

  /** A pairing of a longer primary stream extends the pairing of its prefix. */
  lemma {:induction false} PairPrefix(primary: seq<string>, translated: seq<string>, m: nat)
    requires m <= |primary| && Pair(primary, translated).Success?
    ensures Pair(primary[..m], translated).Success?
    ensures Pair(primary[..m], translated).value == Pair(primary, translated).value[..m]
    decreases |primary|
  {
    if m < |primary| {
      var n := |primary| - 1;
      PairPrefix(primary[..n], translated, m);
      assert primary[..n][..m] == primary[..m];
    } else {
      assert primary[..m] == primary;
    }
  }

  /** Once a prefix of the primary stream fails, the whole pass fails with
      the same error: nothing after the failing read is looked at. */
  lemma {:induction false} PairFailureFinal(primary: seq<string>, translated: seq<string>, m: nat)
    requires m <= |primary| && Pair(primary[..m], translated).Failure?
    ensures Pair(primary, translated) == Pair(primary[..m], translated)
    decreases |primary|
  {
    if m < |primary| {
      var n := |primary| - 1;
      assert primary[..n][..m] == primary[..m];
      PairFailureFinal(primary[..n], translated, m);
    } else {
      assert primary[..m] == primary;
    }
  }

  /** Read `i`'s rank path is the translation of translated line number
      "classified reads before `i`": the streams advance in lockstep. */
  lemma PairReadsInLockstep(primary: seq<string>, translated: seq<string>, i: nat)
    requires Pair(primary, translated).Success?
    requires i < |primary| && IsClassified(primary[i])
    ensures Translate(ReadLine(translated, ClassifiedCount(primary[..i])))
         == Success(Pair(primary, translated).value[i].rankings)
  {
    PairPrefix(primary, translated, i + 1);
    assert primary[..i + 1][..i] == primary[..i];
  }

  /** The pass succeeds iff the translated line consumed for every classified
      read has at least two tokens. */
  lemma {:induction false} PairSucceedsIff(primary: seq<string>, translated: seq<string>)
    ensures Pair(primary, translated).Success?
        <==> forall i :: 0 <= i < |primary| && IsClassified(primary[i])
                         ==> Translate(ReadLine(translated, ClassifiedCount(primary[..i]))).Success?
    decreases |primary|
  {
    if primary != [] {
      var n := |primary| - 1;
      PairSucceedsIff(primary[..n], translated);
      forall i | 0 <= i < n ensures primary[..n][i] == primary[i] && primary[..n][..i] == primary[..i] { }
    }
  }

  /** The pass stops at the first classified read whose translation fails:
      every classified read before it was translated. */
  lemma {:induction false} PairFailsAtFirst(primary: seq<string>, translated: seq<string>, i: nat)
    requires Pair(primary, translated).Failure?
    requires i < Pair(primary, translated).error.read && IsClassified(primary[i])
    ensures Translate(ReadLine(translated, ClassifiedCount(primary[..i]))).Success?
    decreases |primary|
  {
    var n := |primary| - 1;
    var prefix := primary[..n];
    assert prefix[i] == primary[i] && prefix[..i] == primary[..i];
    if Pair(prefix, translated).Failure? {
      PairFailureFinal(primary, translated, n);
      PairFailsAtFirst(prefix, translated, i);
    } else {
      PairSucceedsIff(prefix, translated);
    }
  }

  /** A translated stream with fewer records than there are classified
      primary lines makes the pass fail; equivalently a successful pass
      consumed no more translated records than exist. */
  lemma {:induction false} DesyncDetected(primary: seq<string>, translated: seq<string>)
    requires ClassifiedCount(primary) > |translated|
    ensures Pair(primary, translated).Failure?
    decreases |primary|
  {
    var n := |primary| - 1;
    if ClassifiedCount(primary[..n]) > |translated| {
      DesyncDetected(primary[..n], translated);
    } else if Pair(primary[..n], translated).Success? {
      assert IsClassified(primary[n]) && ClassifiedCount(primary[..n]) == |translated|;
      WordsOfBlank("");
    }
  }

  // ---------------------------------------------------------------------
  // The sample at one rate
  // ---------------------------------------------------------------------

  /** A read whose draw is `draw` is included in the sample of rate `rate`. */
  predicate Included(draw: real, rate: real)
  {
    draw <= rate
  }

  /** The number of reads included at `rate`. */
  function ReadsAt(draws: seq<real>, rate: real): nat
    decreases |draws|
  {
    if draws == [] then 0
    else
      var n := |draws| - 1;
      ReadsAt(draws[..n], rate) + (if Included(draws[n], rate) then 1 else 0)
  }

  /** The read count at `rate` is the number of draws at or below it. */
  lemma {:induction false} ReadsAtIsCardinality(draws: seq<real>, rate: real)
    ensures ReadsAt(draws, rate) == |set i | 0 <= i < |draws| && Included(draws[i], rate)|
    decreases |draws|
  {
    if draws != [] {
      var n := |draws| - 1;
      ReadsAtIsCardinality(draws[..n], rate);
      var before := set i | 0 <= i < n && Included(draws[..n][i], rate);
      var after := set i | 0 <= i < |draws| && Included(draws[i], rate);
      assert before == set i | 0 <= i < n && Included(draws[i], rate);
      if Included(draws[n], rate) {
        assert after == before + {n};
      } else {
        assert after == before;
      }
    }
  }

  /** Nesting of read counts: a higher rate includes at least as many reads. */
  lemma {:induction false} ReadsNested(draws: seq<real>, r1: real, r2: real)
    requires r1 <= r2
    ensures ReadsAt(draws, r1) <= ReadsAt(draws, r2)
    decreases |draws|
  {
    if draws != [] {
      ReadsNested(draws[..|draws| - 1], r1, r2);
    }
  }

  /** Draws lie in [0,1), so the sample at rate 1 or above holds every read. */
  lemma {:induction false} FullRateIncludesAll(draws: seq<real>, rate: real)
    requires forall i :: 0 <= i < |draws| ==> 0.0 <= draws[i] < 1.0
    requires 1.0 <= rate
    ensures ReadsAt(draws, rate) == |draws|
    decreases |draws|
  {
    if draws != [] {
      FullRateIncludesAll(draws[..|draws| - 1], rate);
    }
  }

  /** A dictionary of the sample at `rate` after the reads `recs` drawn
      `draws`: only included classified reads update it. */
  function DictAt(d: Dictionary, recs: seq<ReadRecord>, draws: seq<real>, rate: real, rank: Rank): Dictionary
    requires |recs| == |draws|
    decreases |recs|
  {
    if recs == [] then d
    else
      var n := |recs| - 1;
      var prev := DictAt(d, recs[..n], draws[..n], rate, rank);
      if Included(draws[n], rate) && recs[n].Classified? then
        UpdatedDictionary(prev, recs[n].rankings, rank)
      else prev
  }

  /** One more read: the per-rate count grows by one exactly when the read
      is included. */
  lemma ReadsAtExtend(draws: seq<real>, i: nat, rate: real)
    requires i < |draws|
    ensures ReadsAt(draws[..i + 1], rate) == ReadsAt(draws[..i], rate) + (if Included(draws[i], rate) then 1 else 0)
  {
    assert draws[..i + 1][..i] == draws[..i];
  }

  /** One more read: the dictionary takes in the read's rank path exactly
      when the read is included and classified. */
  lemma DictAtExtend(d: Dictionary, recs: seq<ReadRecord>, rec: ReadRecord, draws: seq<real>, i: nat, rate: real, rank: Rank)
    requires |recs| == i < |draws|
    ensures DictAt(d, recs + [rec], draws[..i + 1], rate, rank)
      == if Included(draws[i], rate) && rec.Classified?
         then UpdatedDictionary(DictAt(d, recs, draws[..i], rate, rank), rec.rankings, rank)
         else DictAt(d, recs, draws[..i], rate, rank)
  {
    assert draws[..i + 1][..i] == draws[..i];
    assert (recs + [rec])[..i] == recs;
  }

  /** The distinct tokens of rank `rank` among the included classified reads. */
  ghost function SeenTaxa(recs: seq<ReadRecord>, draws: seq<real>, rate: real, rank: Rank): set<string>
    requires |recs| == |draws|
  {
    set i, t | 0 <= i < |recs| && recs[i].Classified? && Included(draws[i], rate)
                && t in recs[i].rankings && Matches(t, rank) :: t
  }

  /** The taxa contributed by read `n` alone. */
  function ReadTaxa(rec: ReadRecord, draw: real, rate: real, rank: Rank): set<string>
  {
    if Included(draw, rate) && rec.Classified? then MatchingTokens(rec.rankings, rank) else {}
  }

  lemma SeenTaxaStep(recs: seq<ReadRecord>, draws: seq<real>, rate: real, rank: Rank)
    requires |recs| == |draws| && recs != []
    ensures SeenTaxa(recs, draws, rate, rank)
         == SeenTaxa(recs[..|recs| - 1], draws[..|recs| - 1], rate, rank)
            + ReadTaxa(recs[|recs| - 1], draws[|recs| - 1], rate, rank)
  {
  }

  /** Distinct-count correctness: the key set of a sample's dictionary is its
      initial keys plus the distinct matching tokens of the included
      classified reads. */
  lemma {:induction false} DictAtKeys(d: Dictionary, recs: seq<ReadRecord>, draws: seq<real>, rate: real, rank: Rank)
    requires |recs| == |draws|
    ensures DictAt(d, recs, draws, rate, rank).Keys == d.Keys + SeenTaxa(recs, draws, rate, rank)
    decreases |recs|
  {
    if recs != [] {
      var n := |recs| - 1;
      DictAtKeys(d, recs[..n], draws[..n], rate, rank);
      SeenTaxaStep(recs, draws, rate, rank);
      if Included(draws[n], rate) && recs[n].Classified? {
        UpdatedDictionaryKeys(DictAt(d, recs[..n], draws[..n], rate, rank), recs[n].rankings, rank);
      }
    }
  }

  /** Nesting of taxa: every taxon seen at a rate is seen at any higher rate,
      so the distinct counts of a fresh sample grow with the rate. */
  lemma TaxaNested(recs: seq<ReadRecord>, draws: seq<real>, r1: real, r2: real, rank: Rank)
    requires |recs| == |draws| && r1 <= r2
    ensures SeenTaxa(recs, draws, r1, rank) <= SeenTaxa(recs, draws, r2, rank)
    ensures DictAt(map[], recs, draws, r1, rank).Keys <= DictAt(map[], recs, draws, r2, rank).Keys
    ensures |DictAt(map[], recs, draws, r1, rank)| <= |DictAt(map[], recs, draws, r2, rank)|
  {
    forall t | t in SeenTaxa(recs, draws, r1, rank) ensures t in SeenTaxa(recs, draws, r2, rank) {
      var i :| 0 <= i < |recs| && recs[i].Classified? && Included(draws[i], r1)
               && t in recs[i].rankings && Matches(t, rank);
    }
    DictAtKeys(map[], recs, draws, r1, rank);
    DictAtKeys(map[], recs, draws, r2, rank);
    SubsetCardinality(DictAt(map[], recs, draws, r1, rank).Keys, DictAt(map[], recs, draws, r2, rank).Keys);
  }

  /** Starting from a dictionary of one rank, the pass only ever adds
      tokens of that rank, each with a positive count. */
  lemma {:induction false} DictAtKeepsRank(d: Dictionary, recs: seq<ReadRecord>, draws: seq<real>, rate: real, rank: Rank)
    requires |recs| == |draws| && RankDictionary(d, rank)
    ensures RankDictionary(DictAt(d, recs, draws, rate, rank), rank)
    decreases |recs|
  {
    if recs != [] {
      var n := |recs| - 1;
      DictAtKeepsRank(d, recs[..n], draws[..n], rate, rank);
      if Included(draws[n], rate) && recs[n].Classified? {
        UpdatedDictionaryKeepsRank(DictAt(d, recs[..n], draws[..n], rate, rank), recs[n].rankings, rank);
      }
    }
  }

  /** Dictionaries of two different ranks never share a token; in
      particular a token is never counted both as a species ("s__") and as
      a subspecies ("s1__"). */
  lemma RankDictionariesDisjoint(d1: Dictionary, d2: Dictionary, a: Rank, b: Rank)
    requires a != b && RankDictionary(d1, a) && RankDictionary(d2, b)
    ensures d1.Keys !! d2.Keys
  {
    forall k | k in d1 ensures k !in d2 {
      if k in d2 {
        AtMostOneRank(k, a, b);
      }
    }
  }

  lemma SubsetCardinality(a: set<string>, b: set<string>)
    requires a <= b
    ensures |a| <= |b|
  {
    assert b == a + (b - a);
  }

  // ---------------------------------------------------------------------
  // The sample set
  // ---------------------------------------------------------------------

  const DefaultRate: real := 0.05

  /** A missing or zero rate is replaced by the default rate. */
  function EffectiveRate(rate: Option<real>): real
  {
    if rate.None? || rate.value == 0.0 then DefaultRate else rate.value
  }

  predicate ValidRate(rate: real)
  {
    0.0 < rate <= 1.0
  }

  /** `int(1 / rate)`: the number of multiples of `rate` in (0,1]. */
  function SamplingPoints(rate: real): (n: nat)
    requires ValidRate(rate)
    ensures n >= 1
    ensures n as real * rate <= 1.0 < (n as real + 1.0) * rate
  {
    var q := 1.0 / rate;
    Reciprocal(rate);
    Bracket(q.Floor as real, q, rate);
    q.Floor
  }

  lemma Reciprocal(rate: real)
    requires ValidRate(rate)
    ensures (1.0 / rate) * rate == 1.0 && 1.0 / rate >= 1.0
  {
    var q := 1.0 / rate;
    if q < 1.0 {
      ScaleStrict(q, 1.0, rate);
    }
  }

  lemma Bracket(n: real, q: real, rate: real)
    requires n <= q < n + 1.0 && q * rate == 1.0 && 0.0 < rate
    ensures n * rate <= 1.0 < (n + 1.0) * rate
  {
    ScaleMonotone(n, q, rate);
    ScaleStrict(q, n + 1.0, rate);
  }

  lemma ScaleMonotone(a: real, b: real, c: real)
    requires a <= b && 0.0 < c
    ensures a * c <= b * c
  {
    assert b * c - a * c == (b - a) * c;
  }

  lemma ScaleStrict(a: real, b: real, c: real)
    requires a < b && 0.0 < c
    ensures a * c < b * c
  {
    assert b * c - a * c == (b - a) * c;
  }

  /** The rates of the samples: rate, 2*rate, ... up to the last multiple
      of rate not above 1. */
  function SampleRates(rate: real): seq<real>
    requires ValidRate(rate)
  {
    seq(SamplingPoints(rate), i => (i + 1) as real * rate)
  }

  /** The sample set is non-empty, starts at `rate`, and one more step
      past its last rate would pass 1. */
  lemma SampleRatesSpan(rate: real)
    requires ValidRate(rate)
    ensures |SampleRates(rate)| >= 1 && SampleRates(rate)[0] == rate
    ensures SampleRates(rate)[|SampleRates(rate)| - 1] + rate > 1.0
  {
  }

  /** Every sample rate lies in (0, 1]. */
  lemma SampleRatesInRange(rate: real)
    requires ValidRate(rate)
    ensures forall i :: 0 <= i < |SampleRates(rate)| ==> 0.0 < SampleRates(rate)[i] <= 1.0
  {
  }

  /** The sample rates strictly increase. */
  lemma SampleRatesIncreasing(rate: real)
    requires ValidRate(rate)
    ensures forall i, j :: 0 <= i < j < |SampleRates(rate)| ==> SampleRates(rate)[i] < SampleRates(rate)[j]
  {
  }

  /** A rate of 1 gives the single sample at rate 1. */
  lemma FullRateSingleSample()
    ensures SampleRates(1.0) == [1.0]
  {
  }

  // ---------------------------------------------------------------------
  // The rows handed to the writer
  // ---------------------------------------------------------------------

  datatype Column = Rates | Reads | Distinct(rank: Rank)

  /** The ten output rows, in order. */
  const Columns: seq<Column> :=
    [Rates, Reads, Distinct(Domain), Distinct(Phylum), Distinct(Class), Distinct(Order),
     Distinct(Family), Distinct(Genus), Distinct(Species), Distinct(Subspecies)]

  function ColumnLabel(c: Column): string
  {
    match c
    case Rates => "rates"
    case Reads => "reads"
    case Distinct(r) =>
      match r
      case Domain => "domains"
      case Phylum => "phylums"
      case Class => "classes"
      case Order => "orders"
      case Family => "families"
      case Genus => "genera"
      case Species => "species"
      case Subspecies => "subspecies"
  }

  datatype Cell = RateCell(rate: real) | CountCell(count: nat)

  datatype Row = Row(heading: string, values: seq<Cell>)

  /** The value a fresh sample at `rate` reports in column `c` after the reads. */
  ghost function ExpectedCell(c: Column, rate: real, recs: seq<ReadRecord>, draws: seq<real>): Cell
    requires |recs| == |draws|
  {
    match c
    case Rates => RateCell(rate)
    case Reads => CountCell(ReadsAt(draws, rate))
    case Distinct(r) => CountCell(|SeenTaxa(recs, draws, rate, r)|)
  }

  /** Ten rows, one value per sample in sample order. */
  ghost function ExpectedRows(rates: seq<real>, recs: seq<ReadRecord>, draws: seq<real>): seq<Row>
    requires |recs| == |draws|
  {
    seq(|Columns|, k requires 0 <= k < |Columns| =>
      Row(ColumnLabel(Columns[k]),
          seq(|rates|, i requires 0 <= i < |rates| => ExpectedCell(Columns[k], rates[i], recs, draws))))
  }

  /** Rows equal the expected ones as soon as they agree heading by heading
      and cell by cell. */
  lemma ExpectedRowsByCell(rows: seq<Row>, rates: seq<real>, recs: seq<ReadRecord>, draws: seq<real>)
    requires |recs| == |draws| && |rows| == |Columns|
    requires forall k :: 0 <= k < |Columns| ==>
      rows[k].heading == ColumnLabel(Columns[k]) && |rows[k].values| == |rates|
    requires forall k, i :: 0 <= k < |Columns| && 0 <= i < |rates| ==>
      rows[k].values[i] == ExpectedCell(Columns[k], rates[i], recs, draws)
    ensures rows == ExpectedRows(rates, recs, draws)
  {
    var expected := ExpectedRows(rates, recs, draws);
    forall k | 0 <= k < |Columns| ensures rows[k] == expected[k] {
      assert rows[k].values == expected[k].values;
    }
  }

  /** A count cell never shrinks as the rate grows: the draws shared by all
      samples make the lower-rate sample a sub-sample of the higher one. */
  lemma CellsGrowWithRate(c: Column, r1: real, r2: real, recs: seq<ReadRecord>, draws: seq<real>)
    requires |recs| == |draws| && c != Rates && r1 <= r2
    ensures ExpectedCell(c, r1, recs, draws).CountCell? && ExpectedCell(c, r2, recs, draws).CountCell?
    ensures ExpectedCell(c, r1, recs, draws).count <= ExpectedCell(c, r2, recs, draws).count
  {
    match c
    case Reads => ReadsNested(draws, r1, r2);
    case Distinct(r) =>
      TaxaNested(recs, draws, r1, r2, r);
      SubsetCardinality(SeenTaxa(recs, draws, r1, r), SeenTaxa(recs, draws, r2, r));
  }

  /** Along every count row of the results, values never decrease from one
      sample to the next. */
  lemma ReportedCountsNested(rate: real, recs: seq<ReadRecord>, draws: seq<real>, k: nat, i: nat, j: nat)
    requires ValidRate(rate) && |recs| == |draws|
    requires 1 <= k < |Columns| && i <= j < |SampleRates(rate)|
    ensures var rows := ExpectedRows(SampleRates(rate), recs, draws);
      rows[k].values[i].CountCell? && rows[k].values[j].CountCell? &&
      rows[k].values[i].count <= rows[k].values[j].count
  {
    var rates := SampleRates(rate);
    SampleRatesIncreasing(rate);
    assert rates[i] <= rates[j];
    CellsGrowWithRate(Columns[k], rates[i], rates[j], recs, draws);
  }
}
