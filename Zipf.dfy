/** The rank-frequency side of the corpus analysis in projekt_1/analiza_korpusu.py:
    which words are kept, the rank table built from their counts, the 90% coverage
    cutoff and the selection of nouns by an external tagger. */
module Zipf {
  import opened Text
  import opened Counts

  // ---------------------------------------------------------------------------
  // Tokens

  /** Single letters are dropped except the Polish words "i" and "a". */
  predicate KeepToken(w: string) {
    |w| > 1 || w == "i" || w == "a"
  }

  /** `[slowo for slowo in slowa_raw if len(slowo) > 1 or slowo in ['i', 'a']]`. */
  function KeepTokens(ws: seq<string>): (r: seq<string>)
    ensures forall k :: 0 <= k < |r| ==> KeepToken(r[k]) && r[k] in ws
    ensures forall w :: w in ws && KeepToken(w) ==> w in r
  {
    if ws == [] then []
    else (if KeepToken(ws[0]) then [ws[0]] else []) + KeepTokens(ws[1..])
  }

  /** A kept word occurs as often as in the input, a rejected word not at all. */
  lemma {:induction false} KeepTokensCounts(ws: seq<string>)
    ensures forall w :: multiset(KeepTokens(ws))[w] == if KeepToken(w) then multiset(ws)[w] else 0
  {
    if ws != [] {
      KeepTokensCounts(ws[1..]);
      assert ws == [ws[0]] + ws[1..];
    }
  }

  /** Keeping preserves the order and drops exactly the rejected words. */
  lemma {:induction false} KeepTokensAppend(a: seq<string>, b: seq<string>)
    ensures KeepTokens(a + b) == KeepTokens(a) + KeepTokens(b)
  {
    if a != [] {
      assert (a + b)[0] == a[0];
      assert (a + b)[1..] == a[1..] + b;
      KeepTokensAppend(a[1..], b);
    } else {
      assert a + b == b;
    }
  }

  /** The word list of a text: `\b`-bounded letter runs of the lower-cased text,
      filtered, then cut to `limit` with Python slice semantics. */
  function CorpusWords(text: string, limit: int): seq<string> {
    PySlice(KeepTokens(FindRuns(Polish, LowerString(text))), limit)
  }

  /** Every word kept is a run of lower-case letters of length at least 2, or one of
      "i" and "a"; the list is a prefix of all kept runs, of length `limit` when
      there are that many. */
  lemma CorpusWordsShape(text: string, limit: int)
    ensures var all := KeepTokens(FindRuns(Polish, LowerString(text)));
      && CorpusWords(text, limit) <= all
      && (0 <= limit <= |all| ==> |CorpusWords(text, limit)| == limit)
      && (limit >= |all| ==> CorpusWords(text, limit) == all)
    ensures forall k :: 0 <= k < |CorpusWords(text, limit)| ==>
      var w := CorpusWords(text, limit)[k];
      && (|w| >= 2 || w == "i" || w == "a")
      && forall j :: 0 <= j < |w| ==> IsLowerLetter(w[j])
  {
    var all := KeepTokens(FindRuns(Polish, LowerString(text)));
    RunsAreLower(text);
    forall k | 0 <= k < |CorpusWords(text, limit)|
      ensures forall j :: 0 <= j < |CorpusWords(text, limit)[k]| ==> IsLowerLetter(CorpusWords(text, limit)[k][j])
    {
      assert CorpusWords(text, limit)[k] == all[k];
    }
  }

  /** A negative `limit` drops that many kept runs from the end, as `[:limit]`
      does in Python. */
  lemma CorpusWordsNegativeLimit(text: string, limit: int)
    requires limit < 0
    ensures var all := KeepTokens(FindRuns(Polish, LowerString(text)));
      && CorpusWords(text, limit) <= all
      && |CorpusWords(text, limit)| == if |all| + limit > 0 then |all| + limit else 0
  {
  }

  /** Each run found in the lower-cased text is made of lower-case letters. */
  lemma RunsAreLower(text: string)
    ensures forall w :: w in FindRuns(Polish, LowerString(text)) ==>
      forall j :: 0 <= j < |w| ==> IsLowerLetter(w[j])
  {
    FindRunsFromText(Polish, LowerString(text));
    LowerStringChars(text);
  }

  // ---------------------------------------------------------------------------
  // Rank-frequency table

  /** One row of the table: the word, its rank r, its frequency f and r*f. */
  datatype Row = Row(word: string, rank: int, freq: int, rankTimesFreq: int)

  /** `enumerate(posortowane, start=1)` turned into rows. */
  function RowsOf(items: Assoc<string>): (rows: seq<Row>)
    ensures |rows| == |items|
  {
    seq(|items|, k requires 0 <= k < |items| =>
      Row(items[k].0, k + 1, items[k].1, (k + 1) * items[k].1))
  }

  /** The table `oblicz_statystyki` builds: `Counter(words).most_common()`. */
  function Table(words: seq<string>): seq<Row> {
    RowsOf(SortDesc(Tally(words)))
  }

  function SumFreq(rows: seq<Row>): int {
    if rows == [] then 0 else rows[0].freq + SumFreq(rows[1..])
  }

  lemma {:induction false} SumFreqSnoc(rows: seq<Row>, r: Row)
    ensures SumFreq(rows + [r]) == SumFreq(rows) + r.freq
  {
    if rows != [] {
      assert (rows + [r])[1..] == rows[1..] + [r];
      SumFreqSnoc(rows[1..], r);
    }
  }

  lemma {:induction false} SumFreqRowsOf(rows: seq<Row>, items: Assoc<string>)
    requires |rows| == |items|
    requires forall k :: 0 <= k < |rows| ==> rows[k].freq == items[k].1
    ensures SumFreq(rows) == Sum(items)
  {
    if rows != [] {
      SumFreqRowsOf(rows[1..], items[1..]);
    }
  }

  /** The table has one row per distinct word of the list, each carrying the
      word's number of occurrences as `f`. */
  lemma TableRows(words: seq<string>)
    ensures var t := Table(words);
      && (forall i, j :: 0 <= i < j < |t| ==> t[i].word != t[j].word)
      && (forall w :: w in words <==> exists k :: 0 <= k < |t| && t[k].word == w)
      && (forall k :: 0 <= k < |t| ==> t[k].freq == multiset(words)[t[k].word] >= 1)
  {
    var tally := Tally(words);
    var sorted := SortDesc(tally);
    var t := Table(words);
    TallyKeys(words);
    SortDescFacts(tally);
    SortDescKeys(tally);
    forall k | 0 <= k < |t| ensures t[k].word in words && t[k].freq == multiset(words)[t[k].word] >= 1 {
      assert sorted[k] in multiset(tally);
      TallyValue(words, sorted[k]);
    }
    forall i, j | 0 <= i < j < |t| ensures t[i].word != t[j].word {
      assert t[i].word == sorted[i].0 && t[j].word == sorted[j].0;
    }
    forall w | w in words ensures exists k :: 0 <= k < |t| && t[k].word == w {
      assert w in KeySet(sorted);
      var p :| p in sorted && p.0 == w;
      var k :| 0 <= k < |sorted| && sorted[k] == p;
      assert t[k].word == w;
    }
  }

  /** The frequencies add up to the number of words; ranks run 1..n in table order
      and `r*f` is their product with `f`. */
  lemma TableTotals(words: seq<string>)
    ensures var t := Table(words);
      && SumFreq(t) == |words|
      && (forall k :: 0 <= k < |t| ==> t[k].rank == k + 1 && t[k].rankTimesFreq == t[k].rank * t[k].freq)
  {
    TallySum(words);
    SortDescFacts(Tally(words));
    SumFreqRowsOf(Table(words), SortDesc(Tally(words)));
  }

  /** `f` never increases down the table, and rows with equal `f` come in order of
      the word's first occurrence in the list (`most_common` sorts stably over the
      counter's insertion order). */
  lemma TableOrder(words: seq<string>)
    ensures var t := Table(words);
      && (forall i, j :: 0 <= i < j < |t| ==> t[i].freq >= t[j].freq)
      && (forall i, j :: 0 <= i < j < |t| && t[i].freq == t[j].freq ==>
            t[i].word in words && t[j].word in words &&
            FirstIndex(words, t[i].word) < FirstIndex(words, t[j].word))
  {
    var sorted := SortDesc(Tally(words));
    SortedTallyFacts(words);
    var t := Table(words);
    assert forall k :: 0 <= k < |t| ==> t[k].word == sorted[k].0 && t[k].freq == sorted[k].1;
  }

  // ---------------------------------------------------------------------------
  // 90% coverage cutoff

  /** `k` is the smallest prefix length whose summed `f` reaches 90% of the total,
      `0.9 * total` written as `10 * cum >= 9 * total`. */
  ghost predicate IsCutoff(rows: seq<Row>, k: int) {
    && 0 <= k <= |rows|
    && 10 * SumFreq(rows[..k]) >= 9 * SumFreq(rows)
    && forall j :: 0 <= j < k ==> 10 * SumFreq(rows[..j]) < 9 * SumFreq(rows)
  }

  predicate PositiveFreqs(rows: seq<Row>) {
    forall k :: 0 <= k < |rows| ==> rows[k].freq >= 1
  }

  lemma TablePositive(words: seq<string>)
    ensures PositiveFreqs(Table(words))
  {
    TableRows(words);
  }

  /** On a non-empty table of positive frequencies the cutoff keeps at least one
      word and at most all of them, and it is unique. */
  lemma CutoffBounds(rows: seq<Row>, k: int, k': int)
    requires |rows| > 0 && PositiveFreqs(rows)
    requires IsCutoff(rows, k) && IsCutoff(rows, k')
    ensures 1 <= k <= |rows| && k == k'
  {
    PositiveSum(rows);
    assert rows[..0] == [];
  }

  lemma {:induction false} PositiveSum(rows: seq<Row>)
    requires PositiveFreqs(rows)
    ensures SumFreq(rows) >= |rows|
  {
    if rows != [] {
      PositiveSum(rows[1..]);
    }
  }

  /** f = [5, 3, 2]: 90% of 10 is 9, 5 + 3 = 8 falls short, so the cutoff is 3. */
  lemma CutoffExample(k: int)
    requires IsCutoff([Row("a", 1, 5, 5), Row("b", 2, 3, 6), Row("c", 3, 2, 6)], k)
    ensures k == 3
  {
    var rows := [Row("a", 1, 5, 5), Row("b", 2, 3, 6), Row("c", 3, 2, 6)];
    assert SumFreq(rows) == 10;
    assert rows[..2] == [Row("a", 1, 5, 5), Row("b", 2, 3, 6)];
    assert SumFreq(rows[..2]) == 8;
    assert rows[..1] == [Row("a", 1, 5, 5)];
    assert SumFreq(rows[..1]) == 5;
    assert rows[..0] == [];
  }

  // ---------------------------------------------------------------------------
  // Noun selection

  /** A tagging function for a batch of words, as `nltk.pos_tag`: opaque. */
  type Tagger = seq<string> -> seq<(string, string)>

  const BatchSize: nat := 1000

  /** `unikalne_slowa[i:i+size]` for `i in range(0, len, size)`. */
  function Batches(ws: seq<string>, size: nat): (bs: seq<seq<string>>)
    requires size > 0
    decreases |ws|
  {
    if ws == [] then []
    else if |ws| <= size then [ws]
    else [ws[..size]] + Batches(ws[size..], size)
  }

  function Concat(bs: seq<seq<string>>): seq<string> {
    if bs == [] then [] else bs[0] + Concat(bs[1..])
  }

  /** The batches are non-empty, at most `size` long, every one but the last exactly
      `size` long, and together they are the word list in order. */
  lemma {:induction false} BatchesCover(ws: seq<string>, size: nat)
    requires size > 0
    ensures Concat(Batches(ws, size)) == ws
    ensures forall k :: 0 <= k < |Batches(ws, size)| ==>
      0 < |Batches(ws, size)[k]| <= size &&
      (k < |Batches(ws, size)| - 1 ==> |Batches(ws, size)[k]| == size)
    decreases |ws|
  {
    if |ws| > size {
      BatchesCover(ws[size..], size);
      assert ws == ws[..size] + ws[size..];
    }
  }

  /** `wszystkie_tagi.extend(nltk.pos_tag(batch))` over all batches. */
  function TagBatches(tagger: Tagger, bs: seq<seq<string>>): seq<(string, string)> {
    if bs == [] then [] else tagger(bs[0]) + TagBatches(tagger, bs[1..])
  }

  /** `df_analiza['wyraz'].tolist()`. */
  function Vocabulary(rows: seq<Row>): (ws: seq<string>)
    ensures |ws| == |rows| && forall k :: 0 <= k < |rows| ==> ws[k] == rows[k].word
  {
    seq(|rows|, k requires 0 <= k < |rows| => rows[k].word)
  }

  /** `dict(pairs)`: a later pair for the same word wins. */
  function Dict(pairs: seq<(string, string)>): (d: map<string, string>)
    ensures forall w :: w in d <==> exists k :: 0 <= k < |pairs| && pairs[k].0 == w
  {
    if pairs == [] then map[]
    else
      var init := pairs[..|pairs| - 1];
      var d := Dict(init);
      assert forall k :: 0 <= k < |init| ==> init[k] == pairs[k];
      d[pairs[|pairs| - 1].0 := pairs[|pairs| - 1].1]
  }

  /** The tag `dict` keeps for a word is the one of its last pair. */
  lemma {:induction false} DictLastWins(pairs: seq<(string, string)>, k: nat)
    requires k < |pairs|
    requires forall j :: k < j < |pairs| ==> pairs[j].0 != pairs[k].0
    ensures pairs[k].0 in Dict(pairs) && Dict(pairs)[pairs[k].0] == pairs[k].1
  {
    var last := |pairs| - 1;
    if k < last {
      var init := pairs[..last];
      assert forall j :: k < j < |init| ==> init[j] == pairs[j];
      DictLastWins(init, k);
      assert pairs[last].0 != pairs[k].0;
    }
  }

  /** `slownik_tagow.get(wyraz, '')`. */
  function TagOf(tags: map<string, string>, w: string): string {
    if w in tags then tags[w] else ""
  }

  /** `tag.startswith('NN')`. */
  predicate IsNounTag(tag: string) {
    |tag| >= 2 && tag[..2] == "NN"
  }

  /** The rows whose word is tagged as a noun, in table order. */
  function NounRows(rows: seq<Row>, tags: map<string, string>): seq<Row> {
    if rows == [] then []
    else (if IsNounTag(TagOf(tags, rows[0].word)) then [rows[0]] else []) + NounRows(rows[1..], tags)
  }

  /** Every selected row is a table row whose tag starts with "NN". */
  lemma {:induction false} NounRowsShape(rows: seq<Row>, tags: map<string, string>)
    ensures forall k :: 0 <= k < |NounRows(rows, tags)| ==>
      NounRows(rows, tags)[k] in rows && IsNounTag(TagOf(tags, NounRows(rows, tags)[k].word))
  {
    if rows != [] {
      NounRowsShape(rows[1..], tags);
      var head := if IsNounTag(TagOf(tags, rows[0].word)) then [rows[0]] else [];
      var r := NounRows(rows, tags);
      forall k | 0 <= k < |r| ensures r[k] in rows && IsNounTag(TagOf(tags, r[k].word)) {
        if k >= |head| {
          assert r[k] == NounRows(rows[1..], tags)[k - |head|];
          assert r[k] in rows[1..];
        }
      }
    }
  }

  lemma {:induction false} NounRowsAppend(a: seq<Row>, b: seq<Row>, tags: map<string, string>)
    ensures NounRows(a + b, tags) == NounRows(a, tags) + NounRows(b, tags)
  {
    if a != [] {
      var head := if IsNounTag(TagOf(tags, a[0].word)) then [a[0]] else [];
      assert a + b == [a[0]] + (a[1..] + b);
      NounRowsCons(a[0], a[1..] + b, tags);
      NounRowsAppend(a[1..], b, tags);
      assert head + (NounRows(a[1..], tags) + NounRows(b, tags))
          == (head + NounRows(a[1..], tags)) + NounRows(b, tags);
    } else {
      assert a + b == b;
    }
  }

  lemma {:induction false} NounRowsCons(x: Row, rest: seq<Row>, tags: map<string, string>)
    ensures NounRows([x] + rest, tags)
      == (if IsNounTag(TagOf(tags, x.word)) then [x] else []) + NounRows(rest, tags)
  {
    assert ([x] + rest)[0] == x;
    assert ([x] + rest)[1..] == rest;
  }

  /** Scanning one more row adds that row exactly when it is tagged as a noun. */
  lemma NounRowsStep(rows: seq<Row>, r: nat, tags: map<string, string>)
    requires r < |rows|
    ensures NounRows(rows[..r + 1], tags)
      == NounRows(rows[..r], tags) + (if IsNounTag(TagOf(tags, rows[r].word)) then [rows[r]] else [])
  {
    assert rows[..r + 1] == rows[..r] + [rows[r]];
    NounRowsAppend(rows[..r], [rows[r]], tags);
    assert [rows[r]][1..] == [];
  }

  /** The nouns among the first rows begin the nouns of the whole table. */
  lemma NounRowsPrefix(rows: seq<Row>, r: nat, tags: map<string, string>)
    requires r <= |rows|
    ensures NounRows(rows[..r], tags) <= NounRows(rows, tags)
  {
    assert rows == rows[..r] + rows[r..];
    NounRowsAppend(rows[..r], rows[r..], tags);
  }

  /** Stopping the scan after row `r`, the first row at which the count of nouns
      reaches `topN`, leaves exactly the first `topN` nouns of the table; with
      `topN` below 1 that happens at the first row. */
  lemma NounsCutOff(rows: seq<Row>, r: nat, tags: map<string, string>, topN: int)
    requires r < |rows|
    requires r > 0 ==> |NounRows(rows[..r], tags)| < topN
    requires |NounRows(rows[..r + 1], tags)| >= topN
    ensures topN >= 1 ==> NounRows(rows[..r + 1], tags) == PySlice(NounRows(rows, tags), topN)
    ensures topN < 1 ==> r == 0
  {
    NounRowsStep(rows, r, tags);
    NounRowsPrefix(rows, r + 1, tags);
    assert rows[..0] == [];
  }

  /** A word whose tag does not start with "NN", including a word the tagger left
      untagged, is never selected. */
  lemma NonNounsSkipped(rows: seq<Row>, tags: map<string, string>, r: Row)
    requires r in NounRows(rows, tags)
    ensures r.word in tags && |tags[r.word]| >= 2 && tags[r.word][..2] == "NN"
  {
    NounRowsShape(rows, tags);
  }
}
