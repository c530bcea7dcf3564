# Krakefaction rarefaction engine, modelled in Dafny

Krakefaction computes rarefaction data from Kraken output. The input is two
streams. The primary (untranslated) stream has one line per read, and a line
that starts with `C` marks a classified read. The translated stream has one
line per classified read: a read identifier and a `|`-separated rank path such
as `d__Bacteria|p__Firmicutes|...|s__Prevotella_enoeca`.

For a sampling rate `rate` in (0, 1], the program builds one `Sample` per
multiple `i * rate` that does not pass 1. It then makes a single pass over the
reads and draws one random number per read. A read is added to every sample
whose rate is at least the draw. Each sample counts its reads and keeps eight
dictionaries, one per principal rank: domain, phylum, class, order, family,
genus, species and subspecies. Each dictionary maps a taxon token to the number
of times it was seen. The output is ten rows: the rates, the read counts, and
the number of distinct taxa per rank, with one value per sample.

The model has five modules:

- `Wrappers`: `Option`, `Result` and `Outcome`.
- `Ranks`: the eight rank labels (`d`, `p`, `c`, `o`, `f`, `g`, `s`, `s1`), the
  `__` separator, and the prefix test on a token.
- `Tokens`: whitespace splitting as in Python's `str.split()`, and splitting on
  one separator character as in `str.split("|")`.
- `Rarefaction`: the specification on values. It defines what updating one
  dictionary with one rank path means, how the two streams pair up in lockstep,
  what the sample at a given rate holds after the pass, the sample rates, and
  the ten rows expected in the output.
- `Krakefaction`: the program itself, written imperatively as the source is. It
  has the `Sample` class with its rate, read counter and eight dictionary
  fields. It also has the pass `GenerateRarefaction`, the row writer
  `WriteResults`, and `Run`, which resolves the rate, builds the samples, makes
  the pass and returns the rows.

The random numbers are an input: `draws`, one real number per primary line. The
two files are inputs too, as sequences of lines. Rates and draws are `real`.

## Model

| member | source | states |
|---|---|---|
| Ranks.AtMostOneRank | krakefaction/Krakefaction.py:106-118 | A token starts with the prefix of at most one rank. In particular, no token is both a species (`s__`) and a subspecies (`s1__`) token. |
| Tokens.Words | krakefaction/Krakefaction.py:331 | Whitespace splitting returns non-empty tokens without whitespace. The line is exactly those tokens, in order, with a whitespace run before the first, after the last and a non-empty one between each pair. |
| Tokens.WordsOfSpaced | krakefaction/Krakefaction.py:331 | The converse: any line laid out as whitespace-free words separated by whitespace splits into exactly those words. With the contract of `Words`, this fixes the result for every line. |
| Tokens.WordsOfBlank | krakefaction/Krakefaction.py:328-331 | A blank line has no tokens. This includes the empty string that `readline` returns once the translated file is exhausted. |
| Tokens.WordsOfRecord | krakefaction/Krakefaction.py:331-333 | A record made of an identifier, whitespace, a rank path and a line end splits into exactly the identifier and the rank path. |
| Tokens.Split | krakefaction/Krakefaction.py:335 | Splitting on `|` returns at least one part. No part contains `|`, and joining the parts with `|` gives back the input. |
| Tokens.SplitJoin | krakefaction/Krakefaction.py:335 | Splitting a `|`-join of `|`-free parts returns exactly those parts. |
| Rarefaction.UpdatedDictionaryCounts | krakefaction/Krakefaction.py:252-264 | After one rank path, a key is present exactly when it was present before or is a matching token of the path. A matching key's count grows by its number of occurrences in the path. Every other key keeps its count. |
| Rarefaction.UpdatedDictionaryKeys | krakefaction/Krakefaction.py:159-163 | The key set after an update is the old key set plus the distinct matching tokens. A repeated token does not grow it. |
| Rarefaction.UpdatedDictionaryKeepsRank | krakefaction/Krakefaction.py:254-264 | If every key of a dictionary has the rank's prefix and a positive count, the same holds after an update. |
| Rarefaction.TranslateRecord | krakefaction/Krakefaction.py:328-335 | A well-formed translated record yields exactly its list of rank tokens. |
| Rarefaction.Pair | krakefaction/Krakefaction.py:316-335 | When the pairing succeeds, there is one record per primary line, classified exactly for lines starting with `C`. When it fails, the error names a classified line. The error's token count is the number of tokens of the translated line that read consumed, and it is fewer than two. |
| Rarefaction.PairFailsAtFirst | krakefaction/Krakefaction.py:325-333 | The failing read is the first classified read whose translation fails. Every classified read before it was translated, because the exception stops the pass at once. |
| Rarefaction.PairReadsInLockstep | krakefaction/Krakefaction.py:325-335 | In a successful pass, classified read `i` is paired with translated line number "classified lines before `i`". Its record holds that line's rank path. |
| Rarefaction.PairSucceedsIff | krakefaction/Krakefaction.py:325-333 | The pass succeeds if and only if every classified line's translated line has at least two tokens. |
| Rarefaction.PairFailureFinal | krakefaction/Krakefaction.py:331-333 | Once a prefix of the input fails, the whole input fails with the same error, because the exception stops the pass. |
| Rarefaction.DesyncDetected | krakefaction/Krakefaction.py:328-333 | If there are more classified lines than translated lines, the pass fails. |
| Rarefaction.ReadsAtIsCardinality | krakefaction/Krakefaction.py:338-344 | The read count at a rate equals the number of draws at or below that rate. |
| Rarefaction.ReadsNested | krakefaction/Krakefaction.py:318-321 | A higher rate never counts fewer reads, because all samples share one draw per read. |
| Rarefaction.FullRateIncludesAll | krakefaction/Krakefaction.py:342 | With draws in [0, 1), the sample at rate 1 counts every read. |
| Rarefaction.DictAtKeys | krakefaction/Krakefaction.py:342-349 | After the pass, a dictionary's key set is its initial key set plus every matching token of every included classified read. |
| Rarefaction.TaxaNested | krakefaction/Krakefaction.py:318-321 | For rates r1 <= r2, the taxa seen at r1 are a subset of those seen at r2. The same holds for the dictionary key sets and their sizes. |
| Rarefaction.DictAtKeepsRank | krakefaction/Krakefaction.py:346-349 | Starting from a dictionary of one rank, the pass only adds tokens of that rank, each with a positive count. |
| Rarefaction.RankDictionariesDisjoint | krakefaction/Krakefaction.py:256 | Dictionaries of two different ranks never share a key. |
| Rarefaction.SamplingPoints | krakefaction/Krakefaction.py:534 | The number of samples is at least 1, and it is the largest n with n * rate <= 1. |
| Rarefaction.SampleRatesSpan | krakefaction/Krakefaction.py:534-538 | The sample set is non-empty and starts at `rate`. One more step past the last rate would pass 1. |
| Rarefaction.SampleRatesInRange | krakefaction/Krakefaction.py:536-538 | Every sample rate lies in (0, 1]. |
| Rarefaction.SampleRatesIncreasing | krakefaction/Krakefaction.py:536-538 | Sample rates strictly increase with the sample index. |
| Rarefaction.FullRateSingleSample | krakefaction/Krakefaction.py:534-538 | Rate 1 gives the single sample at rate 1. |
| Rarefaction.CellsGrowWithRate | krakefaction/Krakefaction.py:342-349 | A read count or distinct-taxa count never shrinks as the rate grows. |
| Rarefaction.ReportedCountsNested | krakefaction/Krakefaction.py:401-461 | Along every count row of the output, values never decrease from one sample to the next. |
| Krakefaction.Sample.constructor | krakefaction/Krakefaction.py:135-147 | A new sample has the given rate, no reads and eight empty dictionaries. |
| Krakefaction.Sample.UpdateDictionary | krakefaction/Krakefaction.py:252-264 | The loop over the rank path returns the dictionary that the specification's update gives. |
| Krakefaction.Sample.UpdateDictionaries | krakefaction/Krakefaction.py:191-200 | Each of the eight dictionaries is updated with the rank path for its own rank. The read count is unchanged. |
| Krakefaction.AddRead | krakefaction/Krakefaction.py:338-349 | A sample's read count grows by one exactly when the draw is at most its rate. Its dictionaries are updated only when the read is also classified. No other sample changes. |
| Krakefaction.GenerateRarefaction | krakefaction/Krakefaction.py:309-353 | The pass succeeds exactly when the pairing does, and otherwise fails with the pairing's error. On success, each sample's read count grows by the number of draws at or below its rate. Each of its dictionaries becomes the specification's dictionary for that rate. |
| Krakefaction.WriteRow | krakefaction/Krakefaction.py:394-399 | A row has the column's heading and one cell per sample, in sample order. |
| Krakefaction.WriteResults | krakefaction/Krakefaction.py:390-461 | There are exactly ten rows, in the order rates, reads, domains, phylums, classes, orders, families, genera, species, subspecies. Each row has one cell per sample, in sample order. A count cell holds the read count or the size of the matching dictionary. |
| Krakefaction.NewSamples | krakefaction/Krakefaction.py:532-538 | The samples are fresh, distinct and empty. Sample k has rate (k + 1) * rate, and there are `int(1 / rate)` samples. |
| Krakefaction.FilledSamplesReport | krakefaction/Krakefaction.py:401-461 | Once every sample holds exactly the reads drawn at its rate, the written rows are the expected rows. |
| Krakefaction.Run | krakefaction/Krakefaction.py:508-545 | A missing or zero rate becomes 0.05, and a rate outside (0, 1] is rejected. A failed pass is reported. Otherwise the result is exactly the expected rows for the sample rates: the rates, the counts of draws at or below each rate, and the numbers of distinct taxa per rank. |

## Left out

- Argument parsing, the version flag, and the `main` and `parse` entry points are not modelled. They are command-line plumbing.
- File-existence checks and opening, reading and closing files are not modelled. The two input files are sequences of lines, and the output is the value of the rows.
- `random.random()` is not modelled. The draws are an input, one per primary line. Only `FullRateIncludesAll` assumes the draws lie in [0, 1).
- The text layout of `writeResults` is not modelled: `str()` of floats and integers, the commas and the newlines. The model keeps the row and column structure and the cell values.
- IEEE floating point is not modelled. Rates and draws are exact reals, so `int(1 / float(rate))` is the exact floor and `i * rate` is exact. The top rate is the largest multiple of the rate not above 1; rate 0.3 gives a top rate of 0.9. A float rounding that moves a product across 1 or across a draw is not captured.
- Non-float and NaN rates are not modelled. The rate is an optional real, and `None` or `0.0` stands for Python's falsy rate.
- Krakefaction.Sample.UpdateDictionary: `updateDictionary` mutates the dictionary object passed to it, and that object is one of the sample's fields. The model passes the dictionary by value and assigns the result back to the field. This has the same effect, because no other object shares these dictionaries.
- Krakefaction.GenerateRarefaction: when the pass fails, the contract does not describe the samples' partially updated state. In the source the exception then ends the whole run, so that state is never written.
- Rarefaction.Pair: `tokens[0]` failing on a line with no tokens and `tokens[1]` failing on a line with one token are the same error kind. `MalformedTranslation` records the number of tokens found, so the two cases can still be told apart.
- Krakefaction.WriteRow and Krakefaction.WriteResults require at least one sample. On an empty sample list the source writes `rates,` and then fails on `samples[last]` with `last = -1`. `run` never reaches that case, because it always builds at least one sample (`Rarefaction.SamplingPoints`).
- Translated lines left over after the last classified read are ignored, as in the source. The model does not report them.
- An empty primary line is treated as unclassified. The source would fail on `untranslatedLine[0]`, but iterating over a file never yields an empty line.
- Whitespace is Python's `str.isspace` set of characters. Unicode normalisation is not modelled.
