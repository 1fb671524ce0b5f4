# Word counting, collating and ranking, modelled in Dafny

This project models the integer-and-string core of a small word-frequency
pipeline and proves properties of the model:

- `count_words` (bin/countwords.py) splits a text on whitespace, strips the
  punctuation of `string.punctuation` from both ends of every chunk, drops
  the chunks that became empty, lower-cases the rest and counts them in a
  `Counter`. `collection_to_csv` sorts that Counter with `most_common()`
  and keeps the first `num` rows (module `CountWords`, with the string
  operations in module `Text`).
- `update_counts` (bin/collate.py) adds the `(word, count)` rows of one
  CSV file into a cumulative Counter, and the loop of `main` feeds it one
  file after another. A name without the `.csv` suffix is refused, a file
  that cannot be opened is skipped, and a file is abandoned at its first
  malformed row. Everything merged up to that point stays merged (module
  `Collate`, with Python's `int`/`str` on decimal integers in module
  `Decimal`).
- bin/plotcounts.py ranks each frequency with
  `rank(ascending=False, method='max')`. The rank of a frequency v is the
  number of entries whose frequency is at least v (module `Ranking`).
- Module `Pipeline` connects the first two programs: what countwords
  writes, collate reads back as the same counts.

Module `Common` holds `Option` and a generic `Sum` over sequences, with the
lemma that a sum does not depend on the order of its terms.

How the program's data is represented:

- A `Counter` built by `count_words` is the sequence of its items in
  insertion order. That is the order `most_common` starts from, so the
  order of tied rows is modelled too.
- The cumulative Counter of collate is a `map<string, int>`. A word absent
  from the map counts 0.
- Each file given to collate is its name together with what opening it
  produces: `Missing` (`FileNotFoundError`), `Denied` (`PermissionError`),
  `Unopenable` (any other error), or the rows `csv.reader` yields.
- Integers are unbounded, as Python's are. The limit of 4300 digits that CPython puts on converting between `int` and `str` is not modelled (see "## Left out").

Facts about the program that the model keeps:

- `int(count)` accepts "-3", so a count read by collate can be negative,
  and `update_counts` adds it like any other
  (`Collate.NegativeCountExample`). A count of "0" creates its entry too.
- plotcounts keeps the rows in file order and adds a rank column next to
  them. `Ranking.Ranks` keeps input order, and `Ranking.RankIsEndOfTieGroup`
  relates each rank to a descending arrangement of the frequencies.
- The final table of collate does not depend on the order of the files,
  for any mix of file outcomes (`Collate.CollateOrderIrrelevant`). This
  holds because what a file adds never depends on the table it is added
  to.

## Model

| member | source | states |
|---|---|---|
| Text.PunctuationIsStringPunctuation | bin/countwords.py:17 | the code-point ranges used for punctuation hold exactly the 32 characters of `string.punctuation` |
| Text.Lower | bin/countwords.py:18 | `word.lower()` keeps the length, leaves no letter A-Z, turns each of A-Z into its lower-case letter and keeps every other character (punctuation and whitespace stay what they were) |
| Text.LowerIdempotent | bin/countwords.py:18 | a string with no upper-case letter is its own lower-case form, and lower-casing twice equals lower-casing once |
| Text.DropLeading | bin/countwords.py:17 | the left strip keeps a suffix of the word; everything it removes is punctuation, and what remains does not start with punctuation |
| Text.DropTrailing | bin/countwords.py:17 | the right strip keeps a prefix of the word; everything it removes is punctuation, and what remains does not end with punctuation |
| Text.Strip | bin/countwords.py:17-18 | `word.strip(string.punctuation)` is no longer than the word, neither starts nor ends with punctuation, and is empty exactly when every character of the word is punctuation, so exactly those chunks are dropped |
| Text.StripKeepsInterior | bin/countwords.py:17 | stripping keeps one contiguous slice `w[i..j]` of the word, interior punctuation included, and everything outside the slice is punctuation; with the ends of `Text.Strip` this determines the result |
| Text.StripNoSpace | bin/countwords.py:16-17 | stripping a whitespace-free chunk leaves it whitespace-free |
| Text.StripExample | bin/countwords.py:17 | "don't," strips to "don't" (the inner apostrophe stays), and "..." strips to "" |
| Text.RunLength | bin/countwords.py:16 | the leading run of a text is whitespace-free and ends at the end of the text or at a whitespace character |
| Text.Split | bin/countwords.py:16 | every chunk of `text.split()` is non-empty and whitespace-free, and the chunks concatenated are the text with its whitespace removed; which cut it is, is pinned by `Text.SplitEquations` and `Text.SplitAtSpace` |
| Text.SplitJoin | bin/countwords.py:16 | splitting `" ".join(cs)` gives back `cs` for any list of non-empty, whitespace-free chunks |
| Text.SplitEquations | bin/countwords.py:16 | the empty text has no chunks, and a non-empty whitespace-free text is a single chunk |
| Text.SplitAtSpace | bin/countwords.py:16 | a whitespace character separates chunks: the chunks of `a + [x] + b` are those of a followed by those of b; with `Text.SplitEquations` this determines `str.split()`, so its chunks are the maximal non-whitespace runs |
| CountWords.LowerStripNormalized | bin/countwords.py:17-18 | a chunk that survives stripping becomes a non-empty lower-case word without whitespace and with no punctuation at either end |
| CountWords.Normalize | bin/countwords.py:17-18 | every word kept is normalised, and the number of words kept is the number of chunks that are non-empty after stripping |
| CountWords.NormalizeSingle | bin/countwords.py:17-18 | one chunk gives no word when it strips to nothing, and otherwise the one word `Lower(Strip(c))` |
| CountWords.NormalizeConcat | bin/countwords.py:17-18 | the words of chunks a + b are the words of a followed by the words of b; with `CountWords.NormalizeSingle` this determines the word list, in order |
| CountWords.NormalizeCounts | bin/countwords.py:17-18 | each word occurs in the word list as often as there are chunks that strip to something non-empty whose lower-case form is that word |
| CountWords.Words | bin/countwords.py:15-18 | the words of a text are normalised, there are as many as there are whitespace chunks that survive stripping, and each word occurs as often as there are chunks of `text.split()` that normalise to it |
| CountWords.Bump | bin/countwords.py:19 | counting one more w keeps every existing item's word in place and keeps positive counts positive; a word not yet counted is appended last with count 1 |
| CountWords.BumpKeys | bin/countwords.py:19 | after counting w, the keys are the old keys plus w |
| CountWords.BumpDistinct | bin/countwords.py:19 | counting a word keeps the Counter's words distinct |
| CountWords.BumpLookup | bin/countwords.py:19 | counting w raises w's count by one and leaves every other word's count as it was |
| CountWords.BumpTotal | bin/countwords.py:19 | counting a word raises the total of the counts by one |
| CountWords.CounterOf | bin/countwords.py:19 | `Counter(words)` has one item per distinct word, a word is a key exactly when it occurs, each count is its number of occurrences (at least 1), and the counts add up to the number of words |
| CountWords.CountWords | bin/countwords.py:13-20 | every key is non-empty, lower-case, whitespace-free and has no punctuation at either end; every count is at least 1 and equals the word's number of occurrences, which is the number of chunks of `text.split()` that strip and lower-case to it; the counts add up to the number of non-empty chunks after stripping; the items come in the order of their words' first occurrences in the text |
| CountWords.CounterOfOrder | bin/countwords.py:19 | `Counter(words)` holds its items in the order of their words' first occurrences: for items i < j, every occurrence of item j's word comes after an occurrence of item i's word |
| CountWords.CountWordsKeys | bin/countwords.py:16-19 | a word is a key of the Counter exactly when it is one of the text's normalised words |
| CountWords.Insert | bin/countwords.py:25 | inserting into a non-increasing list adds exactly that item, as a permutation, and keeps the list non-increasing |
| CountWords.InsertStable | bin/countwords.py:25 | the inserted item goes in front of the items with the same count, and those keep their order |
| CountWords.MostCommon | bin/countwords.py:25 | `most_common()` is a permutation of the Counter's items in non-increasing count order |
| CountWords.MostCommonStable | bin/countwords.py:25 | the sort is stable: for every count, the items with that count come in the order the Counter holds them |
| CountWords.SliceEnd | bin/countwords.py:26-29 | `collection[:num]` keeps exactly the items the slice keeps: with a stop of at least 0, the items before it; with a negative stop, the items whose index counted from the back (i - n) is before it; with `num` absent, every item |
| CountWords.TopRows | bin/countwords.py:23-29 | the rows written are as many as the slice keeps; each is a (word, count) item of the Counter; they are in non-increasing count order; no item left out has a larger count than the last row written |
| CountWords.TopRowsTieOrder | bin/countwords.py:25-29 | for every count, the rows written with that count are the first items of that count in the Counter's order |
| CountWords.WrittenRowsCountOccurrences | bin/countwords.py:13-34 | every row written for a text is a normalised word with its exact number of occurrences in the text, at least 1 |
| CountWords.LookupDistinct | bin/countwords.py:19 | in a Counter with distinct words, looking up an item's word gives that item's count |
| Decimal.FormatNat | bin/countwords.py:29 | `str(n)` of a natural number is a non-empty string of digits whose value is n, with no leading zero: it starts with '0' only when it is "0" |
| Decimal.ParseInt | bin/collate.py:22 | `int(s)` succeeds exactly on an optional minus sign followed by at least one digit; the result is the decimal value of the digits, negated when there is a minus sign |
| Decimal.ParseLeadingZero | bin/collate.py:22 | leading zeros do not change the value: "007" and "7" (and "-007" and "-7") parse alike |
| Decimal.FormatInt | bin/countwords.py:29 | `str(n)` starts with a minus sign exactly when n is negative; after the sign come digits whose value is the magnitude of n, with no leading zero (the only string starting with '0' is "0") |
| Decimal.ParseFormat | bin/collate.py:22 | `int(str(n)) == n` for every integer n, negative ones included (CPython's 4300-digit conversion limit aside) |
| Decimal.ParseExamples | bin/collate.py:22 | "42", "-3" and "007" parse to 42, -3 and 7; "", "-" and "4x" are rejected |
| Collate.ParseRow | bin/collate.py:21-22 | a row is usable exactly when it has two fields and the second parses as an integer; the pair is then the first field and that integer |
| Collate.FirstBad | bin/collate.py:21-22 | the rows before the index found are all usable, and the row at that index (if any) is not |
| Collate.Next | bin/collate.py:22 | `word_counts[word] += count` makes the word a key (counting a missing word as 0), adds the count to its value and leaves every other word's value or absence as it was |
| Collate.UpdateCounts | bin/collate.py:19-22 | `update_counts` finishes exactly when every row is usable, and otherwise stops at the first unusable row |
| Collate.UpdateCountsMeaning | bin/collate.py:19-22 | `update_counts` stops exactly at the first unusable row; the keys afterwards are the old keys plus the words of the rows added, even when their counts sum to zero or less; each value is the old value plus the counts of the rows added for that word |
| Collate.UpdateConcat | bin/collate.py:19-22 | updating with r1 and then r2 equals updating with r1 + r2; if r1 stops at a bad row, r2 is never read |
| Collate.UntouchedWordKeepsValue | bin/collate.py:21-22 | a word named by no usable row keeps its value, or stays absent |
| Collate.ReadTwiceDoubles | bin/collate.py:21-22 | reading the same well-formed rows twice adds their counts twice |
| Collate.NoRollback | bin/collate.py:21-22 | a file that stops at row k leaves exactly the table that its first k rows alone produce |
| Collate.NegativeCountExample | bin/collate.py:22 | a row with count "-3" for a new word creates the entry with value -3 |
| Collate.ZeroCountExample | bin/collate.py:22 | a row with count "0" for a new word creates the entry with value 0 |
| Collate.PartialFileExample | bin/collate.py:21-22 | rows a,1 / b / c,2 on a table holding a=5 stop at row 1 with a=6; row c is never read |
| Collate.LastFour | bin/collate.py:35 | `fname[-4:]` is the last four characters, or the whole name when it is shorter |
| Collate.CsvSuffixMeaning | bin/collate.py:35-37 | a name passes the suffix test exactly when it is at least four characters long and ends in ".csv" |
| Collate.CsvSuffixExamples | bin/collate.py:35-37 | "counts.csv" and ".csv" pass; "data.txt", "csv" and "a.CSV" are refused |
| Collate.Visit | bin/collate.py:33-46 | one iteration reports the file's verdict, and a file refused by name or by `open` leaves the table unchanged |
| Collate.VisitMeaning | bin/collate.py:33-46 | after one iteration a word is a key exactly when it was one or the file added a row for it, and its value grows by exactly what the file's rows before its first bad row add |
| Collate.CollateFrom | bin/collate.py:32-46 | the loop logs exactly one status per file; `Collate.CollateFromMeaning` states the rest |
| Collate.CollateFromMeaning | bin/collate.py:32-46 | every file is tried in order and logged with its verdict; the keys are the old keys plus the words of rows added by any file; each value is the old value plus the sum over files of what each added |
| Collate.Collate | bin/collate.py:30-46 | from an empty Counter every file's status is logged in order; a word is a key exactly when some file added a row for it, and its value is the sum over files of what each added |
| Collate.CollateConcat | bin/collate.py:32-46 | processing files a + b equals processing a, then processing b from the table a left; the logs are concatenated |
| Collate.SkippedFileIsInert | bin/collate.py:35-46 | a file refused by name or by `open` changes no count, the files after it are processed as if it were absent, and its verdict is logged |
| Collate.CollateOrderIrrelevant | bin/collate.py:32-40 | the final table depends only on the multiset of files, not on their order |
| Collate.NothingAddedGivesEmpty | bin/collate.py:30-32 | with no files, or when no file gets a row added, the result is the empty table |
| Collate.SameFileTwiceDoubles | bin/collate.py:32-40 | naming the same file twice adds its contribution twice |
| Collate.AbandonedFileKeepsPrefix | bin/collate.py:38-46 | a file abandoned at row k leaves the table as if it held only its first k rows |
| Ranking.Ranks | bin/plotcounts.py:11-12 | the rank column has one rank per entry, in input order, and every rank lies between 1 and the number of entries |
| Ranking.RankOrder | bin/plotcounts.py:11-12 | equal frequencies get equal ranks, and a strictly larger frequency gets a strictly smaller rank |
| Ranking.MinimumRankIsCount | bin/plotcounts.py:11-12 | the least frequency gets rank N, the number of entries |
| Ranking.RankPermutation | bin/plotcounts.py:11-12 | reordering the input moves each rank with its entry: a rank depends only on the value and the multiset of values |
| Ranking.RankIsEndOfTieGroup | bin/plotcounts.py:11-12 | in any descending arrangement of the frequencies, a value's rank is the last position of its tie group |
| Ranking.RanksExample | bin/plotcounts.py:11-12 | frequencies [5, 5, 3] get ranks [2, 2, 3] |
| Ranking.ComputeRanks | bin/plotcounts.py:11-12 | the rank of each entry is the number of entries whose frequency is at least its own, so the loop computes exactly `Ranking.Ranks` |
| Pipeline.CsvRows | bin/countwords.py:28-29 | one row is written per item, in order, and collate reads each back as that item's word and count |
| Pipeline.CsvRowsReadBack | bin/collate.py:21-22 | every row written for a Counter item is usable, and it adds to each word exactly what that item counted |
| Pipeline.SumIsLookup | bin/collate.py:21-22 | for a Counter with distinct words, adding up the items' counts for w gives w's count |
| Pipeline.SingleFile | bin/collate.py:30-46 | collating one ".csv" file whose rows are all usable merges it whole; the keys are the words its rows name and each value is the sum of that word's counts |
| Pipeline.CollateReadsBackCounts | bin/countwords.py:23-29 | collating the file of all rows written for a text merges it whole; its keys are the text's words and each value is that word's number of occurrences |

## Left out

- Command-line parsing, logging and its messages are not modelled (bin/countwords.py:32-46, bin/collate.py:25-29, 31 and 47-63). The `Status` logged per file stands in for the warning text. The empty `Counter()` of bin/collate.py:30 is modelled as the empty map.
- The cumulative Counter of collate is a map, so the order in which its words were first added is not kept. That order only decides the order of tied rows in `util.collection_to_csv`, which is not part of this model.
- Output is not modelled: `csv.writer` writing to stdout, the `utilities` module whose `collection_to_csv` collate calls (utilities is not part of this model), and the log file. The rows written are modelled. The CSV quoting and escaping done by `csv.writer` and `csv.reader` is taken to give back the fields it was given.
- Reading files is not modelled. `reader.read()` is replaced by the text given as a parameter. Opening a file is replaced by the `Opened` value given with its name. An error raised in the middle of reading (for example a decoding error) is not modelled apart from a malformed row.
- Decimal.ParseInt: accepts only an optional '-' followed by ASCII digits. Python's `int` also accepts surrounding whitespace, a '+' sign, underscores between digits and non-ASCII digits. Rows using those forms count as malformed here. CPython's default limit of 4300 digits for converting between `int` and `str` (a `ValueError` beyond it) is not modelled: longer counts are accepted here, so a row that abandons a file in CPython is added in the model.
- Text.Split: whitespace is the ASCII set that `str.isspace` accepts (code points 9-13 and 28-32). Unicode whitespace such as U+00A0 is not modelled.
- Text.Lower: lower-cases A-Z only. Unicode case mapping is not modelled.
- Ranking.ComputeRanks: pandas returns the ranks as floating-point numbers, which are integers for the `max` method. The model uses `int`. Missing values (NaN) in the frequency column are not modelled.
- Reading the CSV with pandas, the scatter plot and `savefig` in bin/plotcounts.py are not modelled. They are library I/O and presentation.
- The power-law estimator is not modelled. It does not appear in the files modelled here, and it is floating-point numerics.
- bin/random_words.py is not modelled. It is numpy float arithmetic, an external word generator, and file writing.
