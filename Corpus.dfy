/** The class `AnalizaKorpusu` of projekt_1/analiza_korpusu.py: it loads the word
    list of a corpus, ranks the words by frequency, finds the 90% coverage cutoff,
    builds the word-adjacency graph and picks the most frequent nouns. The corpus
    file's contents are passed in as `text`. */
module Corpus {
  import opened Text
  import opened Counts
  import opened Zipf
  import opened Cooccurrence

  datatype Option<T> = None | Some(value: T)

  class CorpusAnalysis {
    /** `self.slowa`. */
    var words: seq<string>
    /** `self.df_analiza`; `None` until the statistics are computed. */
    var table: Option<seq<Row>>
    /** `self.graf_sasiedztwa`; `None` until the graph is built. */
    var graph: Option<Graph>

    ghost predicate Valid()
      reads this
    {
      table.Some? ==> PositiveFreqs(table.value)
    }

    constructor ()
      ensures Valid()
      ensures words == [] && table == None && graph == None
    {
      words := [];
      table := None;
      graph := None;
    }

    /** `wczytaj_korpus`: keep the `\b`-bounded letter runs of the lower-cased text
        that are longer than one letter or are "i" or "a", up to `limit` of them. */
    method LoadCorpus(text: string, limit: int)
      requires Valid()
      modifies this`words
      ensures Valid()
      ensures words == CorpusWords(text, limit)
    {
      var raw := FindRuns(Polish, LowerString(text));
      var kept := KeepTokens(raw);
      words := PySlice(kept, limit);
    }

    /** `oblicz_statystyki`: one row per distinct word, ranked by
        `Counter(words).most_common()`. */
    method ComputeStatistics() returns (t: seq<Row>)
      requires Valid()
      modifies this`table
      ensures Valid()
      ensures table == Some(t) && t == Table(words)
    {
      var sorted := SortDesc(Tally(words));
      var rows: seq<Row> := [];
      var i := 0;
      while i < |sorted|
        invariant 0 <= i <= |sorted|
        invariant rows == RowsOf(sorted)[..i]
      {
        assert RowsOf(sorted)[..i + 1] == RowsOf(sorted)[..i] + [RowsOf(sorted)[i]];
        rows := rows + [Row(sorted[i].0, i + 1, sorted[i].1, (i + 1) * sorted[i].1)];
        i := i + 1;
      }
      assert RowsOf(sorted)[..i] == RowsOf(sorted);
      TablePositive(words);
      table := Some(rows);
      t := rows;
    }

    /** `odciecie_90_procent`: the smallest number of leading rows whose summed `f`
        reaches 90% of all occurrences, and those rows. The scan stops at the first
        prefix that reaches the threshold. An empty table has no column `f` and
        makes the source raise, hence the precondition. */
    method Cutoff90() returns (k: int, head: seq<Row>)
      requires Valid()
      requires table.Some? && |table.value| > 0
      ensures IsCutoff(table.value, k) && 1 <= k <= |table.value|
      ensures head == table.value[..k]
    {
      var rows := table.value;
      var total := SumFreq(rows);
      PositiveSum(rows);
      var cum, i := 0, 0;
      while 10 * cum < 9 * total
        invariant 0 <= i <= |rows|
        invariant cum == SumFreq(rows[..i])
        invariant forall j :: 0 <= j < i ==> 10 * SumFreq(rows[..j]) < 9 * total
        decreases |rows| - i
      {
        assert rows[..|rows|] == rows;
        SumFreqSnoc(rows[..i], rows[i]);
        assert rows[..i + 1] == rows[..i] + [rows[i]];
        cum := cum + rows[i].freq;
        i := i + 1;
      }
      assert rows[..0] == [];
      k := i;
      head := rows[..k];
    }

    /** `generuj_graf_sasiedztwa`: count the sorted pairs of adjacent words in
        each sentence, then keep the pairs counted at least `minWeight` times. */
    method BuildAdjacencyGraph(text: string, minWeight: int) returns (g: Graph)
      requires Valid()
      modifies this`graph
      ensures Valid()
      ensures graph == Some(g) && g == AdjacencyGraph(text, minWeight)
    {
      var pairs := CountPairs(Sentences(text));
      var gr := SelectEdges(pairs, minWeight);
      graph := Some(gr);
      g := gr;
    }

    /** The pair counter over all sentences, sentence by sentence. */
    static method CountPairs(ss: seq<string>) returns (pairs: Assoc<(string, string)>)
      ensures pairs == Tally(AllPairs(ss, |ss|))
    {
      pairs := [];
      var s := 0;
      while s < |ss|
        invariant 0 <= s <= |ss|
        invariant pairs == Tally(AllPairs(ss, s))
      {
        pairs := CountSentenceAt(pairs, ss, s);
        s := s + 1;
      }
    }

    /** Counting the pairs of sentence `s` extends the counter of the sentences
        before it to the counter of the sentences up to and including it. */
    static method CountSentenceAt(pairs: Assoc<(string, string)>, ss: seq<string>, s: nat)
      returns (pairs': Assoc<(string, string)>)
      requires s < |ss| && pairs == Tally(AllPairs(ss, s))
      ensures pairs' == Tally(AllPairs(ss, s + 1))
    {
      pairs' := CountSentence(pairs, AllPairs(ss, s), SentenceWords(ss[s]));
      assert AllPairs(ss, s + 1) == AllPairs(ss, s) + SentencePairs(SentenceWords(ss[s]));
    }

    /** The last loop of `generuj_graf_sasiedztwa`: offer each counted pair, in
        counter order, as an edge when its count reaches `minWeight`. */
    static method SelectEdges(items: Assoc<(string, string)>, minWeight: int) returns (g: Graph)
      ensures g == EdgesFrom(items, |items|, minWeight)
    {
      g := Graph([], []);
      var k := 0;
      while k < |items|
        invariant 0 <= k <= |items|
        invariant g == EdgesFrom(items, k, minWeight)
      {
        if items[k].1 >= minWeight {
          g := AddEdge(g, items[k].0.0, items[k].0.1, items[k].1);
        }
        k := k + 1;
      }
    }

    /** The inner loop of `generuj_graf_sasiedztwa`: count the sorted pair of
        `ws[i]` and `ws[i+1]` when both are longer than one character. */
    static method CountSentence(pairs: Assoc<(string, string)>, ghost before: seq<(string, string)>, ws: seq<string>)
      returns (pairs': Assoc<(string, string)>)
      requires pairs == Tally(before)
      ensures pairs' == Tally(before + SentencePairs(ws))
    {
      pairs' := pairs;
      var i := 0;
      assert before + PairsUpTo(ws, 0) == before;
      while i < |ws| - 1
        invariant 0 <= i && (i == 0 || i < |ws|)
        invariant pairs' == Tally(before + PairsUpTo(ws, i))
      {
        var w1, w2 := ws[i], ws[i + 1];
        PairStep(before, ws, i);
        // split() never yields an empty word, so only the length test matters
        if |w1| > 1 && |w2| > 1 {
          pairs' := Bump(pairs', PairKey(w1, w2));
        }
        i := i + 1;
      }
      assert SentencePairs(ws) == PairsUpTo(ws, i);
    }

    /** One step of the pair scan: position `i` adds its key exactly when both
        words are longer than one character. */
    static lemma PairStep(before: seq<(string, string)>, ws: seq<string>, i: nat)
      requires i + 1 < |ws|
      ensures Countable(ws[i], ws[i + 1]) ==>
        Tally(before + PairsUpTo(ws, i + 1)) == Bump(Tally(before + PairsUpTo(ws, i)), PairKey(ws[i], ws[i + 1]))
      ensures !Countable(ws[i], ws[i + 1]) ==>
        before + PairsUpTo(ws, i + 1) == before + PairsUpTo(ws, i)
    {
      if Countable(ws[i], ws[i + 1]) {
        var key := PairKey(ws[i], ws[i + 1]);
        assert before + PairsUpTo(ws, i + 1) == before + PairsUpTo(ws, i) + [key];
        TallySnoc(before + PairsUpTo(ws, i), key);
      }
    }

    /** The batch loop of `znajdz_rzeczowniki`: tag `vocab[i:i+1000]` for
        `i` in `range(0, len(vocab), 1000)` and concatenate the results. */
    static method TagAll(tagger: Tagger, vocab: seq<string>) returns (allTags: seq<(string, string)>)
      ensures allTags == TagBatches(tagger, Batches(vocab, BatchSize))
    {
      allTags := [];
      var i := 0;
      while i < |vocab|
        invariant 0 <= i < |vocab| + BatchSize
        invariant var from := if i < |vocab| then i else |vocab|;
          allTags + TagBatches(tagger, Batches(vocab[from..], BatchSize))
            == TagBatches(tagger, Batches(vocab, BatchSize))
      {
        var hi := if i + BatchSize < |vocab| then i + BatchSize else |vocab|;
        var batch := vocab[i..hi];
        TagStep(tagger, vocab, i, hi);
        assert allTags + tagger(batch) + TagBatches(tagger, Batches(vocab[hi..], BatchSize))
            == allTags + TagBatches(tagger, Batches(vocab[i..], BatchSize));
        allTags := allTags + tagger(batch);
        i := i + BatchSize;
      }
    }

    /** Tagging what is left of the vocabulary is tagging the next batch, then the
        rest. */
    static lemma TagStep(tagger: Tagger, vocab: seq<string>, i: nat, hi: nat)
      requires i < |vocab| && hi == (if i + BatchSize < |vocab| then i + BatchSize else |vocab|)
      ensures TagBatches(tagger, Batches(vocab[i..], BatchSize))
        == tagger(vocab[i..hi]) + TagBatches(tagger, Batches(vocab[hi..], BatchSize))
    {
      BatchStep(vocab, i, hi);
      var bs := Batches(vocab[i..], BatchSize);
      assert bs[0] == vocab[i..hi];
      assert bs[1..] == Batches(vocab[hi..], BatchSize);
    }

    static lemma BatchStep(vocab: seq<string>, i: nat, hi: nat)
      requires i < |vocab| && hi == (if i + BatchSize < |vocab| then i + BatchSize else |vocab|)
      ensures Batches(vocab[i..], BatchSize) == [vocab[i..hi]] + Batches(vocab[hi..], BatchSize)
    {
      if hi < |vocab| {
        assert vocab[i..][..BatchSize] == vocab[i..hi];
        assert vocab[i..][BatchSize..] == vocab[hi..];
      } else {
        assert vocab[i..] == vocab[i..hi];
        assert vocab[hi..] == [];
      }
    }

    /** `znajdz_rzeczowniki`: tag the vocabulary in batches of 1000 words, then walk
        the table in rank order collecting rows tagged "NN...", stopping once
        `topN` are collected. The stop test follows the append, so a `topN` below 1
        still admits the first row when it is a noun. An empty table has no column
        `wyraz` and makes the source raise, hence the precondition. */
    method FindNouns(tagger: Tagger, topN: int) returns (nouns: seq<Row>)
      requires table.Some? && |table.value| > 0
      ensures var rows := table.value;
        var tags := Dict(TagBatches(tagger, Batches(Vocabulary(rows), BatchSize)));
        && (topN >= 1 ==> nouns == PySlice(NounRows(rows, tags), topN))
        && (topN < 1 ==> nouns == NounRows(rows[..1], tags))
    {
      var rows := table.value;
      var allTags := TagAll(tagger, Vocabulary(rows));
      var tags := Dict(allTags);
      nouns := [];
      var r := 0;
      while r < |rows|
        invariant 0 <= r <= |rows|
        invariant nouns == NounRows(rows[..r], tags)
        invariant r > 0 ==> |nouns| < topN
      {
        NounRowsStep(rows, r, tags);
        var tag := TagOf(tags, rows[r].word);
        if IsNounTag(tag) {
          nouns := nouns + [rows[r]];
        }
        if |nouns| >= topN {
          NounsCutOff(rows, r, tags, topN);
          break;
        }
        r := r + 1;
      }
      if r == |rows| {
        assert rows[..|rows|] == rows;
        assert |nouns| < topN;
      }
    }
  }
}
