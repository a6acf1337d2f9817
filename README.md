# Corpus analysis: a verified model of the counting and ranking core

This project models the counting and ranking logic of two corpus-analysis scripts in Dafny.

`projekt_1/analiza_korpusu.py` (class `AnalizaKorpusu`) does the following:
- It extracts the word list of a Polish text.
- It builds a Zipf rank-frequency table with `Counter.most_common()`.
- It finds the 90% coverage cutoff.
- It builds a word-adjacency graph from the sorted pairs of consecutive words in each sentence.
- It picks the most frequent nouns according to a part-of-speech tagger.

`projekt_3/analiza_semantyczna.py` (class `AnalizaSemanyczna`) does the following:
- It loads an English text as a space-joined word list.
- It counts nouns, adjectives and verbs in a tagged document and keeps the 100 most common of each.
- It counts adjective→noun and verb→noun neighbours into nested counters.
- It derives three views from those counters: the coloured bipartite edge list, the connection matrix and the sorted listings.

The modules follow that structure:

| module | what it holds |
|---|---|
| `Text` | Character classes, `str.lower` and the `\b[letters]+\b` extractor. Also `str.split()`, `' '.join`, Python's `s[:n]` and Python's string order. |
| `Counts` | `collections.Counter` as an insertion-ordered association list: `+= 1`, counting a sequence, the stable descending sort behind `most_common`, and `most_common(n)`. |
| `Zipf` | The token filter, the rank table, the cutoff and the noun selection, as functions with their lemmas. |
| `Cooccurrence` | Sentence splitting, pair keys, pair counts and the graph, as functions with their lemmas. |
| `Corpus` | The class `CorpusAnalysis`, whose fields mirror `self.slowa`, `self.df_analiza` and `self.graf_sasiedztwa`. Its methods run the loops of the source and are proved against the functions above. |
| `Semantic` | The specification functions of the semantic analysis. Also the class `SemanticAnalysis`, whose fields mirror the three word lists and the two nested counters. |

Two parts of the source's environment are parameters of the model:
- **The corpus file's contents** are a `text: string` parameter.
- **The taggers** are also parameters. `nltk.pos_tag` is an arbitrary function `Tagger` from a batch of words to (word, tag) pairs. spaCy's `doc` is a given `seq<Token>` of (text, pos) records.

The model rests on four representation choices:
- **Counters.** A `Counter` or `defaultdict(int)` is a sequence of (key, count) pairs in insertion order. The listings' stable sort and `most_common`'s tie order depend on that order.
- **Nested counters.** `defaultdict(lambda: defaultdict(int))` is a `map` from the outer key to such a sequence.
- **Numbers.** All integers are unbounded. The source's `0.9 * total` comparison is written as `10 * cum >= 9 * total`.
- **Tables and graphs.** The pandas table becomes a sequence of `Row` records. The networkx graph becomes its node list and edge list.

## Model

| member | source | states |
|---|---|---|
| Text.Lower | projekt_1/analiza_korpusu.py:41 | `str.lower` on one character never yields an ASCII capital, and a result in the Polish letter class is a lower-case letter. |
| Text.LowerFacts | projekt_1/analiza_korpusu.py:41 | Each ASCII capital and each Latin-1 capital À..Þ (not `×`) becomes its own small letter, 32 code points on. Each of Ą Ć Ę Ł Ń Ś Ź Ż becomes the small letter right after it. A lower-case letter stays as it is, and so does `×` and every character that is not one of these capitals. |
| Text.LowerStringChars | projekt_1/analiza_korpusu.py:41 | No character of a lower-cased text is an ASCII capital, and every letter of the Polish class in it is lower-case. |
| Text.RunsFromSound | projekt_1/analiza_korpusu.py:41 | Every span the extractor reports is a maximal letter run that is not adjacent to a word character (`\b` on both sides). |
| Text.RunsFromComplete | projekt_1/analiza_korpusu.py:41 | Every such `\b`-bounded run is reported. |
| Text.RunsFromOrdered | projekt_1/analiza_korpusu.py:41 | The reported spans are in text order and do not overlap. |
| Text.RunsCharacterised | projekt_1/analiza_korpusu.py:41 | The reported spans are exactly the bounded runs, in text order. |
| Text.FindRunsSound | projekt_1/analiza_korpusu.py:41 | `re.findall` returns one word per bounded span: the span's text, a non-empty run of letters of the class. |
| Text.FindRunsFromText | projekt_3/analiza_semantyczna.py:45 | Every extracted word is a non-empty letter run whose characters come from the text. |
| Text.TouchingRunIsDropped | projekt_1/analiza_korpusu.py:41 | No reported span overlaps a maximal letter run that touches a digit, `_` or a letter outside the class, so such a run yields no word at all. |
| Text.SplitWsFields | projekt_1/analiza_korpusu.py:139 | `str.split()` yields non-empty pieces without whitespace. |
| Text.Gaps | projekt_1/analiza_korpusu.py:139 | What `str.split()` drops between and around the pieces is whitespace only. |
| Text.SplitWsReassemble | projekt_1/analiza_korpusu.py:139 | `str.split()` loses only whitespace: the string is its pieces with the gaps put back, in order. The gaps between two pieces are non-empty, and the outer gaps hold the leading and trailing whitespace. |
| Text.SplitJoin | projekt_3/analiza_semantyczna.py:49 | Splitting `' '.join(ws)` on whitespace gives `ws` back when each word is a non-empty run of non-space characters. |
| Text.PySlice | projekt_1/analiza_korpusu.py:48 | `s[:n]` is a prefix of `s` whose length follows Python's slice rules for any integer `n`, including negative ones. |
| Text.LexLeTotal | projekt_1/analiza_korpusu.py:146 | Python's string order is total. |
| Text.LexLeAntisymmetric | projekt_1/analiza_korpusu.py:146 | Python's string order is antisymmetric. |
| Counts.BumpGet | projekt_1/analiza_korpusu.py:147 | `c[k] += 1` raises the count of `k` by one and leaves every other count unchanged. |
| Counts.BumpKeys | projekt_1/analiza_korpusu.py:147 | A new key is appended after all existing ones, and existing keys keep their order. |
| Counts.BumpDistinct | projekt_1/analiza_korpusu.py:147 | Keys stay distinct after `c[k] += 1`. |
| Counts.BumpPositive | projekt_3/analiza_semantyczna.py:88 | Counts stay positive after `c[k] += 1`. |
| Counts.TallySnoc | projekt_1/analiza_korpusu.py:55 | Counting one more item is one `+= 1` on the counter. |
| Counts.TallyGet | projekt_1/analiza_korpusu.py:55 | `Counter(s)[x]` is the number of occurrences of `x` in `s`. |
| Counts.TallyKeys | projekt_1/analiza_korpusu.py:55 | `Counter(s)` has distinct keys, and they are exactly the items of `s`. |
| Counts.TallyValue | projekt_1/analiza_korpusu.py:55 | Each stored (key, count) pair carries the key's number of occurrences, which is at least 1. |
| Counts.TallyOrder | projekt_1/analiza_korpusu.py:55 | The counter's keys are in order of first occurrence in `s`. |
| Counts.GetDistinct | projekt_1/analiza_korpusu.py:151 | With distinct keys, looking up an item's key gives back its count. |
| Counts.TallySum | projekt_1/analiza_korpusu.py:55 | The counts add up to `len(s)`. |
| Counts.InsertFacts | projekt_1/analiza_korpusu.py:56 | One step of the stable descending sort keeps the same entries and a non-increasing order. |
| Counts.SortDescFacts | projekt_1/analiza_korpusu.py:56 | `most_common()` holds the same entries as the counter (a permutation, with the same total), ordered by count, descending. |
| Counts.SortDescKeys | projekt_1/analiza_korpusu.py:56 | Sorting keeps the keys distinct and keeps the key set. |
| Counts.SortDescStable | projekt_1/analiza_korpusu.py:56 | Entries with equal counts keep their relative order from the counter. |
| Counts.SortDescKeepsTies | projekt_3/analiza_semantyczna.py:210-214 | On a counter with distinct keys, equal counts stay in insertion order (stable `sorted(..., reverse=True)`). |
| Counts.SortedTallyFacts | projekt_1/analiza_korpusu.py:55-56 | `Counter(s).most_common()` lists each distinct item once with its number of occurrences. Counts do not increase down the list, and equal counts follow first occurrence in `s`. Every item of `s` has an entry. |
| Counts.MostCommonFacts | projekt_3/analiza_semantyczna.py:68-70 | `most_common(n)` keeps at most `n` distinct items of `s`, by count with ties in first-occurrence order. A left-out item means `n` were kept, none of them less frequent, and every kept item tied with it occurs earlier in `s`. |
| Counts.MostCommonKept | projekt_3/analiza_semantyczna.py:68-70 | The kept items: at most `n`, distinct, counted, in order. |
| Counts.MostCommonLeftOut | projekt_3/analiza_semantyczna.py:68-70 | An item left out means the list is full and every listed item is at least as frequent. A listed item of the same count occurs earlier in `s`, so the stable sort's tie-break decides the cut. |
| Zipf.KeepTokens | projekt_1/analiza_korpusu.py:43-46 | Every kept word passes the filter (length > 1, or `"i"`/`"a"`) and comes from the input. Every input word that passes the filter is kept. |
| Zipf.KeepTokensCounts | projekt_1/analiza_korpusu.py:43-46 | A word that passes the filter occurs as often as in the input, and a rejected word does not occur. |
| Zipf.KeepTokensAppend | projekt_1/analiza_korpusu.py:43-46 | The filter works word by word and keeps the order. |
| Zipf.CorpusWordsShape | projekt_1/analiza_korpusu.py:41-48 | `self.slowa` is a prefix of the kept runs, in text order, holding the first `limit` of them when there are that many, and all of them when `limit` is at least their number. Each is a lower-case letter run of length ≥ 2, or `"i"` or `"a"`. |
| Zipf.CorpusWordsNegativeLimit | projekt_1/analiza_korpusu.py:48 | For a negative `limit`, `[:limit]` keeps all but the last `-limit` kept runs, and none once `-limit` is at least their number. |
| Zipf.RunsAreLower | projekt_1/analiza_korpusu.py:41 | Runs found in the lower-cased text consist of lower-case letters. |
| Zipf.TableRows | projekt_1/analiza_korpusu.py:55-65 | One row per distinct word, each word of the list has a row, and `f` is the word's number of occurrences (≥ 1). |
| Zipf.TableTotals | projekt_1/analiza_korpusu.py:55-65 | Column `f` sums to `len(self.slowa)`. `r` runs 1..n in table order, and `r*f` equals `r` times `f`. |
| Zipf.TableOrder | projekt_1/analiza_korpusu.py:55-59 | `f` does not increase down the table. Rows with equal `f` are in order of first occurrence of the word. |
| Zipf.TablePositive | projekt_1/analiza_korpusu.py:55-65 | Every row has `f ≥ 1`. |
| Zipf.CutoffBounds | projekt_1/analiza_korpusu.py:108-120 | On a non-empty table, the cutoff satisfies `1 ≤ k ≤ n` and is unique. |
| Zipf.PositiveSum | projekt_1/analiza_korpusu.py:108 | With all `f ≥ 1`, the total is at least the number of rows. |
| Zipf.CutoffExample | projekt_1/analiza_korpusu.py:108-120 | f = [5, 3, 2] gives cutoff 3. |
| Zipf.BatchesCover | projekt_1/analiza_korpusu.py:210-213 | The 1000-word slices concatenate back to the whole vocabulary. Every slice is non-empty and at most 1000 words long. |
| Zipf.Dict | projekt_1/analiza_korpusu.py:215 | `dict(pairs)` has exactly the words that occur in the pairs as keys. |
| Zipf.DictLastWins | projekt_1/analiza_korpusu.py:215 | The value `dict(pairs)` keeps for a word is the tag of that word's last pair. |
| Zipf.NounRowsShape | projekt_1/analiza_korpusu.py:217-222 | The selected rows are table rows whose tag starts with `"NN"`. |
| Zipf.NounRowsAppend | projekt_1/analiza_korpusu.py:217-222 | The selection goes row by row in table order. |
| Zipf.NounRowsStep | projekt_1/analiza_korpusu.py:219-222 | One more row is appended exactly when its tag starts with `"NN"`. |
| Zipf.NounRowsPrefix | projekt_1/analiza_korpusu.py:217-225 | The nouns among the first rows begin the nouns of the whole table. |
| Zipf.NounsCutOff | projekt_1/analiza_korpusu.py:224-225 | Breaking when the count first reaches `top_n` leaves exactly the first `top_n` nouns. For `top_n < 1`, the break happens at the first row. |
| Zipf.NonNounsSkipped | projekt_1/analiza_korpusu.py:219-221 | An untagged word (`''`) or a tag not starting with `"NN"` is never selected. |
| Cooccurrence.TerminatorAt | projekt_1/analiza_korpusu.py:134 | The next match of `[.!?]+` starts at the first terminator at or after the scan position. |
| Cooccurrence.TerminatorAtFacts | projekt_1/analiza_korpusu.py:134 | The stretch skipped before that match holds no terminator. |
| Cooccurrence.PastTerminators | projekt_1/analiza_korpusu.py:134 | The greedy `+` stops at the first non-terminator, and a run that starts at a terminator is non-empty. |
| Cooccurrence.PastTerminatorsFacts | projekt_1/analiza_korpusu.py:134 | Everything the `+` consumed is a terminator. |
| Cooccurrence.Sentences | projekt_1/analiza_korpusu.py:134 | `re.split(r'[.!?]+', t)` yields at least one piece. |
| Cooccurrence.SentencesShape | projekt_1/analiza_korpusu.py:134 | No piece contains a terminator, every separator is a non-empty run of terminators, and every piece between two separators is non-empty, so each separator is a maximal run. |
| Cooccurrence.SentencesFromInner | projekt_1/analiza_korpusu.py:134 | From any scan position, the pieces between two runs are non-empty, and the first piece is non-empty when the scan starts on a non-terminator. |
| Cooccurrence.SentencesReassemble | projekt_1/analiza_korpusu.py:134 | There is one separator fewer than pieces, and the text is its pieces with the separating runs put back, in order. |
| Cooccurrence.CleanChar | projekt_1/analiza_korpusu.py:138 | `re.sub(r'[^\w\s]', ' ', ...)` leaves only word characters and whitespace. |
| Cooccurrence.CleanCharFacts | projekt_1/analiza_korpusu.py:138 | A lower-cased word character or whitespace character is kept as it is, and every other character becomes a space. |
| Cooccurrence.CleanFacts | projekt_1/analiza_korpusu.py:138 | The substitution is character by character and keeps the length. |
| Cooccurrence.SentenceWordsShape | projekt_1/analiza_korpusu.py:138-139 | Each word of a sentence is non-empty and made of word characters. |
| Cooccurrence.SplitWsChars | projekt_1/analiza_korpusu.py:139 | Each piece of `split()` is made of characters of the split string. |
| Cooccurrence.PairKeyCanonical | projekt_1/analiza_korpusu.py:146 | `tuple(sorted([a, b]))` is the same for (a, b) and (b, a), is itself sorted, and holds exactly a and b. |
| Cooccurrence.PairsUpToCount | projekt_1/analiza_korpusu.py:141-147 | A key's count from one sentence is the size of the set of adjacent positions whose words are both longer than one character and whose sorted pair is the key. |
| Cooccurrence.PairsUpToStep | projekt_1/analiza_korpusu.py:141-147 | One pass of the pair loop adds one to a key's count exactly when that position counts for the key. |
| Cooccurrence.AllPairsCanonical | projekt_1/analiza_korpusu.py:146-147 | Every counted key is a sorted pair. |
| Cooccurrence.EdgesFromFacts | projekt_1/analiza_korpusu.py:149-153 | Each counter item with count ≥ `min_czestotliwosc` gives an edge with its count as weight, and the graph has no other edges. The nodes are exactly the endpoints, each once, so no node is isolated. |
| Cooccurrence.EdgesFromComplete | projekt_1/analiza_korpusu.py:151-153 | Every item at or above the threshold becomes an edge. |
| Cooccurrence.EdgesFromSound | projekt_1/analiza_korpusu.py:151-153 | Every edge comes from an item at or above the threshold. |
| Cooccurrence.EdgesFromNodes | projekt_1/analiza_korpusu.py:149-153 | `add_edge` adds exactly the missing endpoints. The nodes are the endpoints, each once. |
| Cooccurrence.AddEdgeNodes | projekt_1/analiza_korpusu.py:153 | One `add_edge` keeps the nodes equal to the endpoints, each listed once. |
| Cooccurrence.EdgeWeightIsCount | projekt_1/analiza_korpusu.py:151-153 | Every edge's weight is the counter's value for its key, and is at least the threshold. |
| Cooccurrence.AdjacencyGraphFacts | projekt_1/analiza_korpusu.py:134-153 | The graph has edge {a, b} with weight w when the sorted pair was counted w ≥ threshold times. Every edge's weight is its pair's count. Every edge is a sorted pair with weight ≥ 1. No node is isolated. |
| Corpus.CorpusAnalysis.constructor | projekt_1/analiza_korpusu.py:29-33 | Empty word list; no table and no graph yet. |
| Corpus.CorpusAnalysis.LoadCorpus | projekt_1/analiza_korpusu.py:41-48 | Sets `self.slowa` to the filtered runs cut to `limit`. |
| Corpus.CorpusAnalysis.ComputeStatistics | projekt_1/analiza_korpusu.py:55-67 | The row-building loop stores the table of the current word list, whose frequencies are positive. |
| Corpus.CorpusAnalysis.Cutoff90 | projekt_1/analiza_korpusu.py:108-120 | The scan with early `break` returns the unique cutoff `k`, with `1 ≤ k ≤ n`, and the first `k` rows. |
| Corpus.CorpusAnalysis.BuildAdjacencyGraph | projekt_1/analiza_korpusu.py:134-155 | The nested counting loops and the edge loop store and return the adjacency graph of the text. |
| Corpus.CorpusAnalysis.SelectEdges | projekt_1/analiza_korpusu.py:149-153 | The edge loop builds the graph of the items at or above the threshold. |
| Corpus.CorpusAnalysis.CountPairs | projekt_1/analiza_korpusu.py:137-147 | The sentence loop leaves the counter of all pair keys of all sentences, in scan order. |
| Corpus.CorpusAnalysis.CountSentenceAt | projekt_1/analiza_korpusu.py:137-147 | One pass of the sentence loop extends the counter by exactly that sentence's pair keys. |
| Corpus.CorpusAnalysis.CountSentence | projekt_1/analiza_korpusu.py:141-147 | The inner loop adds exactly the sentence's countable pair keys to the counter. |
| Corpus.CorpusAnalysis.PairStep | projekt_1/analiza_korpusu.py:145-147 | One position bumps its key exactly when both words are longer than one character. |
| Corpus.CorpusAnalysis.TagAll | projekt_1/analiza_korpusu.py:207-213 | The batch loop calls the tagger on consecutive 1000-word slices and concatenates the results. |
| Corpus.CorpusAnalysis.BatchStep | projekt_1/analiza_korpusu.py:210-211 | The slice at `i` is the next batch. |
| Corpus.CorpusAnalysis.TagStep | projekt_1/analiza_korpusu.py:210-213 | Tagging the rest of the vocabulary is tagging the next batch, then what follows it. |
| Corpus.CorpusAnalysis.FindNouns | projekt_1/analiza_korpusu.py:205-225 | For `top_n ≥ 1`, returns the first `top_n` rows, in rank order, whose tag starts with `"NN"`. For `top_n < 1`, returns the first row if it is a noun, and nothing otherwise. |
| Semantic.LoweredRunsAreLower | projekt_3/analiza_semantyczna.py:45 | Runs found in the lower-cased text are non-empty words of `a`..`z`. |
| Semantic.LoadTextWords | projekt_3/analiza_semantyczna.py:45-49 | The returned text splits back into exactly the first `limit_slow` bounded ASCII runs of the lower-cased text, each a non-empty word of `a`..`z`. |
| Semantic.ClassTextsSnoc | projekt_3/analiza_semantyczna.py:60-66 | One more token adds its text to its own class only, and only when it is longer than two characters. |
| Semantic.CounterStep | projekt_3/analiza_semantyczna.py:60-66 | The class counter is bumped for a token of that class longer than two characters, and left unchanged otherwise. |
| Semantic.ClassTextsMembers | projekt_3/analiza_semantyczna.py:60-66 | A word is counted for a class iff it is longer than two characters and some token of that class carries it. |
| Semantic.ClassesShareNoToken | projekt_3/analiza_semantyczna.py:60-66 | A token has one part of speech, so it is counted in at most one of the three counters, and together they count at most `len(doc)` words. |
| Semantic.TopWordsFacts | projekt_3/analiza_semantyczna.py:68-70 | Each class list holds at most 100 distinct counted words, by count descending with ties in first-occurrence order. A word left out means the list is full of words at least as frequent, and any listed word of the same count occurs before it in the class's token sequence. |
| Semantic.TopWordsFromDoc | projekt_3/analiza_semantyczna.py:60-70 | Every listed word is longer than two characters and occurs in the document under that class. |
| Semantic.Bump2Facts | projekt_3/analiza_semantyczna.py:88-94 | `rel[a][b] += 1` raises exactly that count by one. It keeps counts positive and inner counters non-empty with distinct keys, and adds only `a` as an outer key. |
| Semantic.AdjStepCount | projekt_3/analiza_semantyczna.py:86-88 | One position adds one to `[a][b]` exactly when noun `b` stands there right after adjective `a`. |
| Semantic.VerbStepCount | projekt_3/analiza_semantyczna.py:86-94 | One position adds one for the verb before the noun and one for the verb after it, independently. |
| Semantic.ScanAdjCounts | projekt_3/analiza_semantyczna.py:85-88 | After the scan, `polaczenia_adj_noun[a][n]` equals its old value plus the number of positions `i ≥ 1` where `n` is a listed noun at `i` and `a` is a listed adjective at `i-1`. |
| Semantic.ScanVerbCounts | projekt_3/analiza_semantyczna.py:85-94 | After the scan, `polaczenia_verb_noun[v][n]` equals its old value plus the positions where noun `n` follows verb `v`, plus those where it precedes `v`. A noun between two occurrences of `v` adds 2. |
| Semantic.ScansWellFormed | projekt_3/analiza_semantyczna.py:85-94 | The scans keep every stored count ≥ 1. |
| Semantic.ColorOf | projekt_3/analiza_semantyczna.py:99-107 | 0 → `#e74c3c`, 1 → `#f39c12`, 2..10 and negative counts → `#27ae60`, above 10 → `#3498db`, each an iff. |
| Semantic.ColorMonotone | projekt_3/analiza_semantyczna.py:99-107 | On non-negative counts, a larger count never gets an earlier bucket, and different buckets have different codes. |
| Semantic.RowLinksMembers | projekt_3/analiza_semantyczna.py:141-144 | The inner loop draws edge (a, b, w) iff `b` is in the second slice, the count of (a, b) is positive, and `w` is that count. |
| Semantic.LinksMembers | projekt_3/analiza_semantyczna.py:139-144 | An edge is drawn iff both words are in the `top_n` slices and the pair's count is positive, with that count as weight. |
| Semantic.ListingFacts | projekt_3/analiza_semantyczna.py:208-239 | The listing covers exactly the listed words that have a counter, in list order. Each word's nouns are its counter's entries, by count descending with ties in insertion order. |
| Semantic.ListingOrder | projekt_3/analiza_semantyczna.py:208-209 | Listed words come from the list, have a counter, and keep the list's order. |
| Semantic.ListingSorted | projekt_3/analiza_semantyczna.py:210-214 | Each inner list is a permutation of the counter, sorted stably by count, descending. |
| Semantic.ListingCovers | projekt_3/analiza_semantyczna.py:208-209 | A word is listed iff it is in the list and has a counter. |
| Semantic.FirstIndexAfter | projekt_3/analiza_semantyczna.py:208 | A word appended to a list without it comes after every earlier word. |
| Semantic.SemanticAnalysis.constructor | projekt_3/analiza_semantyczna.py:20-26 | Empty word lists and empty nested counters. |
| Semantic.SemanticAnalysis.AnalyzePos | projekt_3/analiza_semantyczna.py:56-70 | The counting loop and `most_common(100)` set the three lists to the top words of each class. |
| Semantic.SemanticAnalysis.FindConnections | projekt_3/analiza_semantyczna.py:81-94 | The indexed loop adds the scan's counts onto the existing counters (no reset) and keeps every count positive. |
| Semantic.SemanticAnalysis.BipartiteEdges | projekt_3/analiza_semantyczna.py:110-146 | The nested loop produces exactly the edges of the `top_n` slices with positive counts, and colours each edge by `get_color`. |
| Semantic.SemanticAnalysis.ConnectionMatrix | projekt_3/analiza_semantyczna.py:246-266 | A fresh `len(set_a) × len(set_b)` matrix over the first 50 words of each side. Cell `[i, j]` is `polaczenia[set_a[i]].get(set_b[j], 0)`, and 0 for words without a counter. |
| Semantic.SemanticAnalysis.Listings | projekt_3/analiza_semantyczna.py:208-239 | The two listings, adjectives then verbs. |
| Semantic.SemanticAnalysis.ListingOf | projekt_3/analiza_semantyczna.py:208-214 | One listing loop skips words without a counter and sorts the others' entries. |

The functions that define what the source computes have no contract of their own. Each is listed below with the lemmas in the table that state its properties:

- `Text.FindRuns` (projekt_1/analiza_korpusu.py:41): `Text.RunsCharacterised`, `Text.FindRunsSound`, `Text.FindRunsFromText`, `Text.TouchingRunIsDropped`.
- `Text.SplitWs` (projekt_1/analiza_korpusu.py:139): `Text.SplitWsFields`, `Text.SplitWsReassemble`, `Text.SplitJoin`.
- `Counts.Tally` (projekt_1/analiza_korpusu.py:55): `Counts.TallyGet`, `Counts.TallyKeys`, `Counts.TallyValue`, `Counts.TallyOrder`, `Counts.TallySum`.
- `Counts.SortDesc` (projekt_1/analiza_korpusu.py:56): `Counts.SortDescFacts`, `Counts.SortDescKeys`, `Counts.SortDescStable`, `Counts.SortDescKeepsTies`.
- `Counts.MostCommon` (projekt_3/analiza_semantyczna.py:68-70): `Counts.MostCommonFacts`, `Counts.MostCommonKept`, `Counts.MostCommonLeftOut`.
- `Zipf.Table` (projekt_1/analiza_korpusu.py:55-65): `Zipf.TableRows`, `Zipf.TableTotals`, `Zipf.TableOrder`, `Zipf.TablePositive`.
- `Cooccurrence.AdjacencyGraph` (projekt_1/analiza_korpusu.py:134-155): `Cooccurrence.AdjacencyGraphFacts`.
- `Semantic.TopWords` (projekt_3/analiza_semantyczna.py:68-70): `Semantic.TopWordsFacts`, `Semantic.TopWordsFromDoc`.
- `Semantic.Links` (projekt_3/analiza_semantyczna.py:139-144): `Semantic.LinksMembers`.
- `Semantic.Listing` (projekt_3/analiza_semantyczna.py:208-214): `Semantic.ListingFacts`, `Semantic.ListingOrder`, `Semantic.ListingSorted`, `Semantic.ListingCovers`.
- `Semantic.LoadText` (projekt_3/analiza_semantyczna.py:45-49): `Semantic.LoadTextWords`, `Semantic.LoweredRunsAreLower`.

## Left out

- **File reading and writing.** Reading the corpus (`open`/`read` in both `wczytaj_korpus` methods and in `generuj_graf_sasiedztwa`) is left out; the contents are a parameter. Also left out: `zapisz_wyniki`'s CSV output, the text files and their formatting in `generuj_listy_polaczen`, path joins, and all `print` output.
- **Plotting and layout.** `wykres_zipfa`, `pokaz_tabele` and `wizualizuj_graf` (degree sort, subgraph, spring layout) are left out. Also the drawing, node positions and float edge widths `min(count*0.5, 5)` in `wizualizuj_graf_dwudzielny`, and the `imshow`/colour bar part of `generuj_macierz_polaczen`. These are presentation with floating point.
- **The taggers.** `nltk.pos_tag`, the spaCy pipeline, `spacy.load`, the model download and the NLTK resource downloads are external code. The tagger and the tagged document are parameters.
- **The regex engine.** The engine itself is not modelled. `\b`, `\w` and `\s` are predicates.
  - `\w` covers ASCII letters, digits, `_`, the Latin-1 alphanumerics (ª µ º ² ³ ¹ ¼ ½ ¾) and the letters of U+00C0..U+024F. The alphanumerics of other blocks and scripts (Greek, Cyrillic, other digits and so on) are not in it.
  - `str.lower` is modelled for ASCII, Latin-1 and the Polish capitals only. Other characters are left unchanged.
- **Graph nodes for the bipartite drawing.** The model gives the sequence of `add_edge` calls and the colour list built beside them. It does not give the undirected edge set networkx ends up with.
  - A word in both slices can produce `(x, y)` and later `(y, x)`. networkx merges these into one edge that carries the later weight, while the colour list keeps both entries.
  - A pair `(x, x)` becomes a self-loop.
  - The nodes added by `add_node` (with the `bipartite` attribute), and their merging when a word is in both slices, are not modelled.
- **Matrix values and names.** The matrix is `int`, not numpy's `float64`. The title and file name strings that `typ` selects are left out.
- **networkx.** `nx.Graph` is modelled by its node and edge lists in insertion order. Its adjacency dictionaries are not modelled. An existing edge cannot be added twice because the counter's keys are distinct.
- **pandas.** `DataFrame` is a sequence of `Row` records. Its index is the default 0-based one, which `odciecie_90_procent` relies on for `idx + 1`.
- **Error paths.** An empty table makes `odciecie_90_procent` and `znajdz_rzeczowniki` raise: there is no column `f` or `wyraz`, and line 124 divides by zero. Their models therefore require a non-empty table.
- zadanie_2/app.py is not part of this model. It is a Streamlit user interface.
- Corpus.CorpusAnalysis.Cutoff90: the `prog_90 = 0.9 * suma_calkowita` float comparison is stated in its exact integer form `10 * cum >= 9 * total`. This ignores the binary rounding of 0.9.
- Semantic.ListingFacts: the iff for coverage is stated as two implications (coverage, and membership of each listed word). `Semantic.ListingCovers` states the iff per word.
- Zipf.Dict: its own ensures give the key set only, so the function stays cheap to use. That the value kept for a word is its last pair's tag is proved in `Zipf.DictLastWins`.
- Cooccurrence.Sentences: its own ensures give at least one piece only. That the pieces hold no terminator and that the separators are maximal terminator runs (the inner pieces are non-empty) is proved in `Cooccurrence.SentencesShape`. That pieces and separators rebuild the text is proved in `Cooccurrence.SentencesReassemble`.
- Cooccurrence.CleanChar: its own ensures say the result is a word character or whitespace. That such a character is kept lower-cased and every other character becomes a space is proved in `Cooccurrence.CleanCharFacts`.
- Text.Lower: its own ensures give the two facts other proofs need. The mapping for every character the model lowers is stated in `Text.LowerFacts`.
