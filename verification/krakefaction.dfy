/** The rarefaction engine: one Sample per sampling rate, filled in a single
    pass over the untranslated and translated Kraken streams. The streams
    and the random draws are inputs. */
module Krakefaction {
  import opened Wrappers
  import opened Ranks
  import opened Tokens
  import opened Rarefaction

  /** The reads of the whole input that fall into one sampling rate. */
  class Sample {
    const rate: real
    var numberOfReads: nat

    var domainDictionary: Dictionary
    var phylumDictionary: Dictionary
    var classDictionary: Dictionary
    var orderDictionary: Dictionary
    var familyDictionary: Dictionary
    var generaDictionary: Dictionary
    var speciesDictionary: Dictionary
    var subspeciesDictionary: Dictionary

    /** The dictionary that holds the taxa of rank `r`. */
    function DictionaryOf(r: Rank): Dictionary
      reads this
    {
      match r
      case Domain => domainDictionary
      case Phylum => phylumDictionary
      case Class => classDictionary
      case Order => orderDictionary
      case Family => familyDictionary
      case Genus => generaDictionary
      case Species => speciesDictionary
      case Subspecies => subspeciesDictionary
    }

    constructor (rate: real)
      ensures this.rate == rate && numberOfReads == 0
      ensures forall r :: DictionaryOf(r) == map[]
    {
      this.rate := rate;
      numberOfReads := 0;
      domainDictionary := map[];
      phylumDictionary := map[];
      classDictionary := map[];
      orderDictionary := map[];
      familyDictionary := map[];
      generaDictionary := map[];
      speciesDictionary := map[];
      subspeciesDictionary := map[];
    }

    /** Updates every rank's dictionary with one rank path. */
    method UpdateDictionaries(rankings: seq<string>)
      modifies this
      ensures forall r :: DictionaryOf(r) == UpdatedDictionary(old(DictionaryOf(r)), rankings, r)
      ensures numberOfReads == old(numberOfReads)
    {
      domainDictionary := UpdateDictionary(domainDictionary, rankings, Domain);
      phylumDictionary := UpdateDictionary(phylumDictionary, rankings, Phylum);
      classDictionary := UpdateDictionary(classDictionary, rankings, Class);
      orderDictionary := UpdateDictionary(orderDictionary, rankings, Order);
      familyDictionary := UpdateDictionary(familyDictionary, rankings, Family);
      generaDictionary := UpdateDictionary(generaDictionary, rankings, Genus);
      speciesDictionary := UpdateDictionary(speciesDictionary, rankings, Species);
      subspeciesDictionary := UpdateDictionary(subspeciesDictionary, rankings, Subspecies);
      EveryRankUpdated(rankings);
    }

    /** Field-by-field updates are rank-by-rank updates. */
    twostate lemma EveryRankUpdated(rankings: seq<string>)
      requires domainDictionary == UpdatedDictionary(old(domainDictionary), rankings, Domain)
      requires phylumDictionary == UpdatedDictionary(old(phylumDictionary), rankings, Phylum)
      requires classDictionary == UpdatedDictionary(old(classDictionary), rankings, Class)
      requires orderDictionary == UpdatedDictionary(old(orderDictionary), rankings, Order)
      requires familyDictionary == UpdatedDictionary(old(familyDictionary), rankings, Family)
      requires generaDictionary == UpdatedDictionary(old(generaDictionary), rankings, Genus)
      requires speciesDictionary == UpdatedDictionary(old(speciesDictionary), rankings, Species)
      requires subspeciesDictionary == UpdatedDictionary(old(subspeciesDictionary), rankings, Subspecies)
      ensures forall r :: DictionaryOf(r) == UpdatedDictionary(old(DictionaryOf(r)), rankings, r)
    {
      forall r ensures DictionaryOf(r) == UpdatedDictionary(old(DictionaryOf(r)), rankings, r) {
        match r
        case Domain =>
        case Phylum =>
        case Class =>
        case Order =>
        case Family =>
        case Genus =>
        case Species =>
        case Subspecies =>
      }
    }

    /** Scans `rankings` for tokens of rank `rank`; each one is inserted into
        `dictionary` with count 1 or has its count incremented. */
    method UpdateDictionary(dictionary: Dictionary, rankings: seq<string>, rank: Rank)
      returns (updated: Dictionary)
      ensures updated == UpdatedDictionary(dictionary, rankings, rank)
    {
      updated := dictionary;
      for i := 0 to |rankings|
        invariant updated == UpdatedDictionary(dictionary, rankings[..i], rank)
      {
        var token := rankings[i];
        assert rankings[..i + 1][..i] == rankings[..i];
        if Matches(token, rank) {
          if token in updated {
            updated := updated[token := updated[token] + 1];
          } else {
            updated := updated[token := 1];
          }
        }
      }
      assert rankings[..|rankings|] == rankings;
    }
  }

  /** No sample occurs twice. */
  predicate NoSharedSample(samples: seq<Sample>)
  {
    forall a, b :: 0 <= a < b < |samples| ==> samples[a] != samples[b]
  }

  /** One pass over the primary stream: every read draws one number, a
      classified read consumes the next translated line, and the read is
      added to every sample whose rate is at least the draw. The pass stops
      at the first classified read whose translation lacks two tokens. */
  method GenerateRarefaction(primary: seq<string>, translated: seq<string>, draws: seq<real>, samples: seq<Sample>)
    returns (outcome: Outcome<PassError>)
    requires |draws| == |primary|
    requires NoSharedSample(samples)
    modifies samples
    ensures outcome.Pass? <==> Pair(primary, translated).Success?
    ensures outcome.Fail? ==> outcome.error == Pair(primary, translated).error
    ensures outcome.Pass? ==> forall k :: 0 <= k < |samples| ==>
      samples[k].numberOfReads == old(samples[k].numberOfReads) + ReadsAt(draws, samples[k].rate)
    ensures outcome.Pass? ==> forall k, r :: 0 <= k < |samples| ==>
      samples[k].DictionaryOf(r) == DictAt(old(samples[k].DictionaryOf(r)), Pair(primary, translated).value, draws, samples[k].rate, r)
  {
    var cursor := 0;
    ghost var recs: seq<ReadRecord> := [];
    for i := 0 to |primary|
      invariant cursor == ClassifiedCount(primary[..i])
      invariant Pair(primary[..i], translated) == Success(recs) && |recs| == i
      invariant forall k :: 0 <= k < |samples| ==>
        samples[k].numberOfReads == old(samples[k].numberOfReads) + ReadsAt(draws[..i], samples[k].rate)
      invariant forall k, r :: 0 <= k < |samples| ==>
        samples[k].DictionaryOf(r) == DictAt(old(samples[k].DictionaryOf(r)), recs, draws[..i], samples[k].rate, r)
    {
      var number := draws[i];
      var classified := IsClassified(primary[i]);
      var rankings: seq<string> := [];
      PairStep(primary, translated, i);
      if classified {
        var translatedLine := if cursor < |translated| then translated[cursor] else "";
        cursor := cursor + 1;
        var tokens := Words(translatedLine);
        if |tokens| < 2 {
          PairFailureFinal(primary, translated, i + 1);
          return Fail(MalformedTranslation(i, |tokens|));
        }
        rankings := Split(tokens[1], '|');
      }
      ghost var rec := if classified then Classified(rankings) else Unclassified;
      AddRead(samples, number, classified, rankings);
      forall k | 0 <= k < |samples|
        ensures samples[k].numberOfReads == old(samples[k].numberOfReads) + ReadsAt(draws[..i + 1], samples[k].rate)
      {
        ReadsAtExtend(draws, i, samples[k].rate);
      }
      forall k, r | 0 <= k < |samples|
        ensures samples[k].DictionaryOf(r)
          == DictAt(old(samples[k].DictionaryOf(r)), recs + [rec], draws[..i + 1], samples[k].rate, r)
      {
        DictAtExtend(old(samples[k].DictionaryOf(r)), recs, rec, draws, i, samples[k].rate, r);
      }
      recs := recs + [rec];
    }
    assert primary[..|primary|] == primary;
    assert draws[..|primary|] == draws;
    return Pass;
  }

  /** The inner loop of the pass: the read with draw `number` is counted by
      every sample whose rate is at least the draw, and a classified read
      also updates those samples' dictionaries with its rank path. */
  method AddRead(samples: seq<Sample>, number: real, classified: bool, rankings: seq<string>)
    requires NoSharedSample(samples)
    modifies samples
    ensures forall k :: 0 <= k < |samples| ==>
      samples[k].numberOfReads == old(samples[k].numberOfReads) + (if Included(number, samples[k].rate) then 1 else 0)
    ensures forall k, r :: 0 <= k < |samples| ==>
      samples[k].DictionaryOf(r) == (if Included(number, samples[k].rate) && classified
        then UpdatedDictionary(old(samples[k].DictionaryOf(r)), rankings, r)
        else old(samples[k].DictionaryOf(r)))
  {
    for j := 0 to |samples|
      invariant forall k :: 0 <= k < |samples| ==>
        samples[k].numberOfReads == old(samples[k].numberOfReads) + (if k < j && Included(number, samples[k].rate) then 1 else 0)
      invariant forall k, r :: 0 <= k < |samples| ==>
        samples[k].DictionaryOf(r) == (if k < j && Included(number, samples[k].rate) && classified
          then UpdatedDictionary(old(samples[k].DictionaryOf(r)), rankings, r)
          else old(samples[k].DictionaryOf(r)))
    {
      if number <= samples[j].rate {
        samples[j].numberOfReads := samples[j].numberOfReads + 1;
        if classified {
          samples[j].UpdateDictionaries(rankings);
        }
      }
    }
  }

  // ---------------------------------------------------------------------
  // Writing the results
  // ---------------------------------------------------------------------

  /** What sample `s` reports in column `c`: its rate, its read count, or
      the number of distinct taxa of the column's rank. */
  function CellOf(s: Sample, c: Column): Cell
    reads s
  {
    match c
    case Rates => RateCell(s.rate)
    case Reads => CountCell(s.numberOfReads)
    case Distinct(r) => CountCell(|s.DictionaryOf(r)|)
  }

  /** One output row: the column's heading, then every sample but the last,
      then the last sample. */
  method WriteRow(samples: seq<Sample>, c: Column) returns (row: Row)
    requires |samples| > 0
    ensures row.heading == ColumnLabel(c) && |row.values| == |samples|
    ensures forall i :: 0 <= i < |samples| ==> row.values[i] == CellOf(samples[i], c)
  {
    var last := |samples| - 1;
    var values: seq<Cell> := [];
    for i := 0 to last
      invariant |values| == i
      invariant forall m :: 0 <= m < i ==> values[m] == CellOf(samples[m], c)
    {
      values := values + [CellOf(samples[i], c)];
    }
    values := values + [CellOf(samples[last], c)];
    row := Row(ColumnLabel(c), values);
  }

  /** The ten rows of the results, in the order of `Columns`, each holding
      one value per sample in sample order. */
  method WriteResults(samples: seq<Sample>) returns (rows: seq<Row>)
    requires |samples| > 0
    ensures |rows| == |Columns|
    ensures forall k :: 0 <= k < |Columns| ==>
      rows[k].heading == ColumnLabel(Columns[k]) && |rows[k].values| == |samples|
    ensures forall k, i :: 0 <= k < |Columns| && 0 <= i < |samples| ==>
      rows[k].values[i] == CellOf(samples[i], Columns[k])
  {
    rows := [];
    for k := 0 to |Columns|
      invariant |rows| == k
      invariant forall m :: 0 <= m < k ==>
        rows[m].heading == ColumnLabel(Columns[m]) && |rows[m].values| == |samples|
      invariant forall m, i :: 0 <= m < k && 0 <= i < |samples| ==>
        rows[m].values[i] == CellOf(samples[i], Columns[m])
    {
      var row := WriteRow(samples, Columns[k]);
      rows := rows + [row];
    }
  }

  // ---------------------------------------------------------------------
  // The whole run
  // ---------------------------------------------------------------------

  datatype RunError =
    | InvalidRate(rate: real)     // the effective rate lies outside (0, 1]
    | PassFailed(error: PassError) // the pass over the streams stopped

  /** Resolves the rate, builds one empty sample per multiple of the rate up
      to 1, makes the pass and returns the rows the writer emits. */
  method Run(primary: seq<string>, translated: seq<string>, draws: seq<real>, rate: Option<real>)
    returns (result: Result<seq<Row>, RunError>)
    requires |draws| == |primary|
    ensures !ValidRate(EffectiveRate(rate)) ==> result == Failure(InvalidRate(EffectiveRate(rate)))
    ensures ValidRate(EffectiveRate(rate)) && Pair(primary, translated).Failure? ==>
      result == Failure(PassFailed(Pair(primary, translated).error))
    ensures ValidRate(EffectiveRate(rate)) && Pair(primary, translated).Success? ==>
      result == Success(ExpectedRows(SampleRates(EffectiveRate(rate)), Pair(primary, translated).value, draws))
  {
    var effective := EffectiveRate(rate);
    if effective <= 0.0 || effective > 1.0 {
      return Failure(InvalidRate(effective));
    }
    var samples := NewSamples(effective);
    var outcome := GenerateRarefaction(primary, translated, draws, samples);
    if outcome.Fail? {
      return Failure(PassFailed(outcome.error));
    }
    var rows := WriteResults(samples);
    ghost var recs := Pair(primary, translated).value;
    ghost var rates := SampleRates(effective);
    FilledSamplesReport(samples, rows, rates, recs, draws);
    return Success(rows);
  }

  /** One empty sample per multiple of `rate` that does not pass 1, in
      increasing order of rate. */
  method NewSamples(rate: real) returns (samples: seq<Sample>)
    requires ValidRate(rate)
    ensures |samples| == |SampleRates(rate)| && NoSharedSample(samples)
    ensures forall k :: 0 <= k < |samples| ==> fresh(samples[k])
    ensures forall k :: 0 <= k < |samples| ==>
      samples[k].rate == SampleRates(rate)[k] && samples[k].numberOfReads == 0
    ensures forall k, r :: 0 <= k < |samples| ==> samples[k].DictionaryOf(r) == map[]
  {
    samples := [];
    var samplingPoints := SamplingPoints(rate);
    for i := 1 to samplingPoints + 1
      invariant |samples| == i - 1
      invariant NoSharedSample(samples)
      invariant forall k :: 0 <= k < |samples| ==> fresh(samples[k])
      invariant forall k :: 0 <= k < |samples| ==>
        samples[k].rate == (k + 1) as real * rate && samples[k].numberOfReads == 0
      invariant forall k, r :: 0 <= k < |samples| ==> samples[k].DictionaryOf(r) == map[]
    {
      var sample := new Sample(i as real * rate);
      samples := samples + [sample];
    }
  }

  /** Once every sample holds exactly the reads drawn at its rate, the rows
      the writer returns are the expected ones. */
  lemma FilledSamplesReport(samples: seq<Sample>, rows: seq<Row>, rates: seq<real>, recs: seq<ReadRecord>, draws: seq<real>)
    requires |recs| == |draws| && |samples| == |rates|
    requires forall i :: 0 <= i < |samples| ==>
      samples[i].rate == rates[i] && samples[i].numberOfReads == ReadsAt(draws, rates[i])
    requires forall i, r :: 0 <= i < |samples| ==>
      samples[i].DictionaryOf(r) == DictAt(map[], recs, draws, rates[i], r)
    requires |rows| == |Columns|
    requires forall k :: 0 <= k < |Columns| ==>
      rows[k].heading == ColumnLabel(Columns[k]) && |rows[k].values| == |samples|
    requires forall k, i :: 0 <= k < |Columns| && 0 <= i < |samples| ==>
      rows[k].values[i] == CellOf(samples[i], Columns[k])
    ensures rows == ExpectedRows(rates, recs, draws)
  {
    forall k, i | 0 <= k < |Columns| && 0 <= i < |samples|
      ensures rows[k].values[i] == ExpectedCell(Columns[k], rates[i], recs, draws)
    {
      match Columns[k]
      case Rates =>
      case Reads =>
      case Distinct(r) =>
        var d := samples[i].DictionaryOf(r);
        DictAtKeys(map[], recs, draws, rates[i], r);
        assert |d| == |d.Keys|;
    }
    ExpectedRowsByCell(rows, rates, recs, draws);
  }
}
