/** The word-adjacency graph of projekt_1/analiza_korpusu.py: sentences split on
    runs of `.`, `!` and `?`, consecutive words of a sentence counted as unordered
    pairs, and the pairs seen often enough kept as weighted edges. */
module Cooccurrence {
  import opened Text
  import opened Counts

  // ---------------------------------------------------------------------------
  // re.split(r'[.!?]+', tekst)

  predicate IsTerminator(c: char) {
    c == '.' || c == '!' || c == '?'
  }

  /** The first position at or after `i` that holds a terminator, or `|t|`. */
  function TerminatorAt(t: string, i: nat): (n: nat)
    requires i <= |t|
    ensures i <= n <= |t|
    ensures n == |t| || IsTerminator(t[n])
    decreases |t| - i
  {
    if i == |t| || IsTerminator(t[i]) then i else TerminatorAt(t, i + 1)
  }

  /** Everything from `i` up to `TerminatorAt(t, i)` is free of terminators. */
  lemma {:induction false} TerminatorAtFacts(t: string, i: nat)
    requires i <= |t|
    ensures forall k :: i <= k < TerminatorAt(t, i) ==> !IsTerminator(t[k])
    decreases |t| - i
  {
    if i < |t| && !IsTerminator(t[i]) {
      TerminatorAtFacts(t, i + 1);
    }
  }

  /** The end of the run of terminators that starts at `i` (`i` itself when there
      is none): the `+` of the pattern is greedy. */
  function PastTerminators(t: string, i: nat): (p: nat)
    requires i <= |t|
    ensures i <= p <= |t|
    ensures i < |t| && IsTerminator(t[i]) ==> i < p
    ensures p == |t| || !IsTerminator(t[p])
    decreases |t| - i
  {
    if i == |t| || !IsTerminator(t[i]) then i else PastTerminators(t, i + 1)
  }

  /** Everything from `i` up to `PastTerminators(t, i)` is a terminator. */
  lemma {:induction false} PastTerminatorsFacts(t: string, i: nat)
    requires i <= |t|
    ensures forall k :: i <= k < PastTerminators(t, i) ==> IsTerminator(t[k])
    decreases |t| - i
  {
    if i < |t| && IsTerminator(t[i]) {
      PastTerminatorsFacts(t, i + 1);
    }
  }

  /** The pieces of `t[i..]` between maximal runs of terminators. */
  function SentencesFrom(t: string, i: nat): (ss: seq<string>)
    requires i <= |t|
    ensures |ss| >= 1
    decreases |t| - i
  {
    var n := TerminatorAt(t, i);
    if n == |t| then [t[i..]]
    else [t[i..n]] + SentencesFrom(t, PastTerminators(t, n))
  }

  /** The maximal runs of terminators in `t[i..]`, in order. */
  function SeparatorsFrom(t: string, i: nat): (rs: seq<string>)
    requires i <= |t|
    decreases |t| - i
  {
    var n := TerminatorAt(t, i);
    if n == |t| then []
    else
      var p := PastTerminators(t, n);
      [t[n..p]] + SeparatorsFrom(t, p)
  }

  /** `re.split(r'[.!?]+', t)`: the pieces between maximal runs of terminators,
      including the empty pieces before a leading and after a trailing run. */
  function Sentences(t: string): (ss: seq<string>)
    ensures |ss| >= 1
  {
    SentencesFrom(t, 0)
  }

  /** The runs of terminators that `Sentences` splits on. */
  function Separators(t: string): seq<string> {
    SeparatorsFrom(t, 0)
  }

  /** A piece of text without terminators. */
  predicate NoTerminator(s: string) {
    forall j :: 0 <= j < |s| ==> !IsTerminator(s[j])
  }

  /** A non-empty run of terminators. */
  predicate IsTerminatorRun(r: string) {
    |r| > 0 && forall j :: 0 <= j < |r| ==> IsTerminator(r[j])
  }

  lemma {:induction false} SentencesFromShape(t: string, i: nat)
    requires i <= |t|
    ensures forall k :: 0 <= k < |SentencesFrom(t, i)| ==> NoTerminator(SentencesFrom(t, i)[k])
    decreases |t| - i
  {
    var n := TerminatorAt(t, i);
    TerminatorAtFacts(t, i);
    var ss := SentencesFrom(t, i);
    assert NoTerminator(ss[0]) by {
      assert forall j :: 0 <= j < n - i ==> ss[0][j] == t[i + j];
    }
    if n < |t| {
      var p := PastTerminators(t, n);
      SentencesFromShape(t, p);
      forall k | 1 <= k < |ss| ensures NoTerminator(ss[k]) {
        assert ss[k] == SentencesFrom(t, p)[k - 1];
      }
    }
  }

  lemma {:induction false} SeparatorsFromShape(t: string, i: nat)
    requires i <= |t|
    ensures forall k :: 0 <= k < |SeparatorsFrom(t, i)| ==> IsTerminatorRun(SeparatorsFrom(t, i)[k])
    decreases |t| - i
  {
    var n := TerminatorAt(t, i);
    if n < |t| {
      var p := PastTerminators(t, n);
      PastTerminatorsFacts(t, n);
      SeparatorsFromShape(t, p);
      var rs := SeparatorsFrom(t, i);
      assert IsTerminatorRun(rs[0]) by {
        assert forall j :: 0 <= j < p - n ==> rs[0][j] == t[n + j];
      }
      forall k | 1 <= k < |rs| ensures IsTerminatorRun(rs[k]) {
        assert rs[k] == SeparatorsFrom(t, p)[k - 1];
      }
    }
  }

  /** Every piece strictly between two runs is non-empty, and so is the first
      piece when the scan starts on a non-terminator. */
  lemma {:induction false} SentencesFromInner(t: string, i: nat)
    requires i <= |t|
    ensures i < |t| && !IsTerminator(t[i]) ==> |SentencesFrom(t, i)[0]| > 0
    ensures forall k :: 0 < k < |SentencesFrom(t, i)| - 1 ==> |SentencesFrom(t, i)[k]| > 0
    decreases |t| - i
  {
    var n := TerminatorAt(t, i);
    var ss := SentencesFrom(t, i);
    if n < |t| {
      var p := PastTerminators(t, n);
      SentencesFromInner(t, p);
      var rest := SentencesFrom(t, p);
      assert p == |t| ==> |rest| == 1;
      forall k | 0 < k < |ss| - 1 ensures |ss[k]| > 0 {
        assert ss[k] == rest[k - 1];
      }
    }
  }

  /** No sentence holds a terminator, every separator is a non-empty run of
      terminators, and every sentence between two separators is non-empty; so
      each separator is a maximal run, as the greedy `+` matches. */
  lemma SentencesShape(t: string)
    ensures forall k :: 0 <= k < |Sentences(t)| ==> NoTerminator(Sentences(t)[k])
    ensures forall k :: 0 <= k < |Separators(t)| ==> IsTerminatorRun(Separators(t)[k])
    ensures forall k :: 0 < k < |Sentences(t)| - 1 ==> |Sentences(t)[k]| > 0
  {
    SentencesFromShape(t, 0);
    SeparatorsFromShape(t, 0);
    SentencesFromInner(t, 0);
  }

  /** `ss[0] + rs[0] + ss[1] + rs[1] + ... + ss[|rs|]`. */
  function Interleave(ss: seq<string>, rs: seq<string>): string
    requires |ss| == |rs| + 1
  {
    if rs == [] then ss[0] else ss[0] + rs[0] + Interleave(ss[1..], rs[1..])
  }

  lemma {:induction false} InterleaveCons(s: string, r: string, ss: seq<string>, rs: seq<string>)
    requires |ss| == |rs| + 1
    ensures Interleave([s] + ss, [r] + rs) == s + r + Interleave(ss, rs)
  {
    assert ([s] + ss)[1..] == ss;
    assert ([r] + rs)[1..] == rs;
  }

  lemma {:induction false} SliceConcat(t: string, i: nat, n: nat, p: nat)
    requires i <= n <= p <= |t|
    ensures t[i..n] + t[n..p] + t[p..] == t[i..]
  {
    assert t[i..n] + t[n..p] == t[i..p];
  }

  lemma {:induction false} SentencesFromReassemble(t: string, i: nat)
    requires i <= |t|
    ensures |SeparatorsFrom(t, i)| == |SentencesFrom(t, i)| - 1
    ensures Interleave(SentencesFrom(t, i), SeparatorsFrom(t, i)) == t[i..]
    decreases |t| - i
  {
    var n := TerminatorAt(t, i);
    if n < |t| {
      var p := PastTerminators(t, n);
      SentencesFromReassemble(t, p);
      InterleaveCons(t[i..n], t[n..p], SentencesFrom(t, p), SeparatorsFrom(t, p));
      SliceConcat(t, i, n, p);
    }
  }

  /** Splitting loses only the terminators: the text is its sentences with the
      separating runs put back. */
  lemma SentencesReassemble(t: string)
    ensures |Separators(t)| == |Sentences(t)| - 1
    ensures Interleave(Sentences(t), Separators(t)) == t
  {
    SentencesFromReassemble(t, 0);
    assert t[0..] == t;
  }

  // ---------------------------------------------------------------------------
  // Words of one sentence

  /** `re.sub(r'[^\w\s]', ' ', ...)` after lower-casing, on one character. */
  function CleanChar(c: char): (d: char)
    ensures IsWordChar(d) || IsSpace(d)
  {
    var l := Lower(c);
    if IsWordChar(l) || IsSpace(l) then l else ' '
  }

  /** A lower-cased word character or whitespace is kept, anything else becomes
      a space. */
  lemma CleanCharFacts(c: char)
    ensures IsWordChar(Lower(c)) || IsSpace(Lower(c)) ==> CleanChar(c) == Lower(c)
    ensures !(IsWordChar(Lower(c)) || IsSpace(Lower(c))) ==> CleanChar(c) == ' '
  {
  }

  function Clean(s: string): string {
    if s == [] then [] else [CleanChar(s[0])] + Clean(s[1..])
  }

  /** The substitution works character by character and keeps the length. */
  lemma {:induction false} CleanFacts(s: string)
    ensures |Clean(s)| == |s|
    ensures forall k :: 0 <= k < |s| ==> Clean(s)[k] == CleanChar(s[k])
  {
    if s != [] {
      CleanFacts(s[1..]);
      assert forall k :: 1 <= k < |s| ==> Clean(s)[k] == Clean(s[1..])[k - 1];
    }
  }

  /** `zdanie_clean.split()`. */
  function SentenceWords(s: string): seq<string> {
    SplitWs(Clean(s))
  }

  /** Every word of a sentence is a non-empty string of word characters. */
  lemma SentenceWordsShape(s: string)
    ensures forall k :: 0 <= k < |SentenceWords(s)| ==>
      |SentenceWords(s)[k]| > 0 &&
      forall j :: 0 <= j < |SentenceWords(s)[k]| ==> IsWordChar(SentenceWords(s)[k][j])
  {
    CleanFacts(s);
    SplitWsFields(Clean(s));
    SplitWsChars(Clean(s));
  }

  /** Each field of `split()` is made of characters of the split string. */
  lemma {:induction false} SplitWsChars(s: string)
    ensures forall k, j :: 0 <= k < |SplitWs(s)| && 0 <= j < |SplitWs(s)[k]| ==> SplitWs(s)[k][j] in s
    decreases |s|
  {
    if s == [] {
    } else if IsSpace(s[0]) {
      SplitWsChars(s[1..]);
    } else {
      var n := NonSpacePrefix(s);
      SplitWsChars(s[n..]);
      forall k, j | 0 <= k < |SplitWs(s)| && 0 <= j < |SplitWs(s)[k]| ensures SplitWs(s)[k][j] in s {
        if k == 0 {
          assert SplitWs(s)[0][j] == s[j];
        } else {
          assert SplitWs(s)[k] == SplitWs(s[n..])[k - 1];
          assert SplitWs(s)[k][j] in s[n..];
        }
      }
    }
  }

  // ---------------------------------------------------------------------------
  // Pair keys and pair counts

  /** `tuple(sorted([a, b]))`. */
  function PairKey(a: string, b: string): (string, string) {
    if LexLe(a, b) then (a, b) else (b, a)
  }

  /** The key does not depend on the order of the two words, and is itself sorted. */
  lemma PairKeyCanonical(a: string, b: string)
    ensures PairKey(a, b) == PairKey(b, a)
    ensures LexLe(PairKey(a, b).0, PairKey(a, b).1)
    ensures {PairKey(a, b).0, PairKey(a, b).1} == {a, b}
  {
    LexLeTotal(a, b);
    if LexLe(a, b) && LexLe(b, a) {
      LexLeAntisymmetric(a, b);
    }
  }

  /** Both words of a pair are longer than one character. */
  predicate Countable(a: string, b: string) {
    |a| > 1 && |b| > 1
  }

  /** The keys counted for the pairs (ws[j], ws[j+1]) with `j < i`, in order. */
  function PairsUpTo(ws: seq<string>, i: nat): seq<(string, string)>
    requires i == 0 || i < |ws|
  {
    if i == 0 then []
    else
      var here := if Countable(ws[i - 1], ws[i]) then [PairKey(ws[i - 1], ws[i])] else [];
      PairsUpTo(ws, i - 1) + here
  }

  /** The keys counted for one sentence: `for i in range(len(slowa_zdania) - 1)`. */
  function SentencePairs(ws: seq<string>): seq<(string, string)> {
    if |ws| < 2 then [] else PairsUpTo(ws, |ws| - 1)
  }

  /** The keys counted over the first `n` sentences, in scan order. */
  function AllPairs(ss: seq<string>, n: nat): seq<(string, string)>
    requires n <= |ss|
  {
    if n == 0 then [] else AllPairs(ss, n - 1) + SentencePairs(SentenceWords(ss[n - 1]))
  }

  /** Position `j` of a sentence counts for `key`: both words are longer than one
      character and their sorted pair is `key`. */
  predicate CountsAt(ws: seq<string>, j: nat, key: (string, string))
    requires j + 1 < |ws|
  {
    Countable(ws[j], ws[j + 1]) && PairKey(ws[j], ws[j + 1]) == key
  }

  /** The positions `j < i` of a sentence that count for `key`. */
  ghost function PairPositions(ws: seq<string>, i: nat, key: (string, string)): set<nat>
    requires i == 0 || i < |ws|
  {
    set j: nat | j < i && CountsAt(ws, j, key)
  }

  /** One more position adds one to the key's count exactly when it counts for it. */
  lemma PairsUpToStep(ws: seq<string>, i: nat, key: (string, string))
    requires 0 < i < |ws|
    ensures multiset(PairsUpTo(ws, i))[key]
      == multiset(PairsUpTo(ws, i - 1))[key] + if CountsAt(ws, i - 1, key) then 1 else 0
  {
    var j := i - 1;
    var here := if Countable(ws[j], ws[i]) then [PairKey(ws[j], ws[i])] else [];
    assert PairsUpTo(ws, i) == PairsUpTo(ws, j) + here;
  }

  /** One more position joins the key's positions exactly when it counts for it. */
  lemma PairPositionsStep(ws: seq<string>, i: nat, key: (string, string))
    requires 0 < i < |ws|
    ensures |PairPositions(ws, i, key)|
      == |PairPositions(ws, i - 1, key)| + if CountsAt(ws, i - 1, key) then 1 else 0
  {
    var j := i - 1;
    if CountsAt(ws, j, key) {
      assert PairPositions(ws, i, key) == PairPositions(ws, j, key) + {j};
    } else {
      assert PairPositions(ws, i, key) == PairPositions(ws, j, key);
    }
  }

  /** The count a key gets from one sentence is its number of qualifying adjacent
      positions, whichever of the two orders the words stood in. */
  lemma {:induction false} PairsUpToCount(ws: seq<string>, i: nat, key: (string, string))
    requires i == 0 || i < |ws|
    ensures multiset(PairsUpTo(ws, i))[key] == |PairPositions(ws, i, key)|
  {
    if i > 0 {
      PairsUpToCount(ws, i - 1, key);
      PairsUpToStep(ws, i, key);
      PairPositionsStep(ws, i, key);
    } else {
      assert PairPositions(ws, 0, key) == {};
    }
  }

  /** The pair counter after the whole text: `pary`, in insertion order. */
  function PairCounts(text: string): Assoc<(string, string)> {
    var ss := Sentences(text);
    Tally(AllPairs(ss, |ss|))
  }

  // ---------------------------------------------------------------------------
  // The graph

  datatype Edge = Edge(a: string, b: string, weight: int)

  /** An undirected graph as `networkx` stores it: nodes in the order they were
      first added and edges in the order they were added. */
  datatype Graph = Graph(nodes: seq<string>, edges: seq<Edge>)

  /** `G.add_edge(a, b, weight=w)` for an edge not yet in the graph. */
  function AddEdge(g: Graph, a: string, b: string, w: int): Graph {
    var n1 := if a in g.nodes then g.nodes else g.nodes + [a];
    var n2 := if b in n1 then n1 else n1 + [b];
    Graph(n2, g.edges + [Edge(a, b, w)])
  }

  /** The graph after the first `n` counter items have been offered to it. */
  function EdgesFrom(items: Assoc<(string, string)>, n: nat, minWeight: int): Graph
    requires n <= |items|
  {
    if n == 0 then Graph([], [])
    else
      var g := EdgesFrom(items, n - 1, minWeight);
      if items[n - 1].1 >= minWeight then AddEdge(g, items[n - 1].0.0, items[n - 1].0.1, items[n - 1].1)
      else g
  }

  /** What `generuj_graf_sasiedztwa` returns. */
  function AdjacencyGraph(text: string, minWeight: int): Graph {
    var items := PairCounts(text);
    EdgesFrom(items, |items|, minWeight)
  }

  function Endpoints(edges: seq<Edge>): set<string> {
    (set e | e in edges :: e.a) + (set e | e in edges :: e.b)
  }

  /** The graph holds one edge per counter item at or above the threshold, with the
      item's count as weight, and nothing else; its nodes are exactly the endpoints
      of its edges, each listed once. */
  lemma EdgesFromFacts(items: Assoc<(string, string)>, n: nat, minWeight: int)
    requires n <= |items|
    ensures var g := EdgesFrom(items, n, minWeight);
      && (forall k :: 0 <= k < n && items[k].1 >= minWeight ==>
            Edge(items[k].0.0, items[k].0.1, items[k].1) in g.edges)
      && (forall e :: e in g.edges ==>
            (exists k :: 0 <= k < n && items[k].1 >= minWeight && e == Edge(items[k].0.0, items[k].0.1, items[k].1)))
      && (set w | w in g.nodes) == Endpoints(g.edges)
      && (forall i, j :: 0 <= i < j < |g.nodes| ==> g.nodes[i] != g.nodes[j])
  {
    EdgesFromComplete(items, n, minWeight);
    EdgesFromSound(items, n, minWeight);
    EdgesFromNodes(items, n, minWeight);
  }

  /** Every counter item at or above the threshold becomes an edge. */
  lemma {:induction false} EdgesFromComplete(items: Assoc<(string, string)>, n: nat, minWeight: int)
    requires n <= |items|
    ensures forall k :: 0 <= k < n && items[k].1 >= minWeight ==>
      Edge(items[k].0.0, items[k].0.1, items[k].1) in EdgesFrom(items, n, minWeight).edges
  {
    if n > 0 {
      EdgesFromComplete(items, n - 1, minWeight);
      var g0 := EdgesFrom(items, n - 1, minWeight);
      var it := items[n - 1];
      if it.1 >= minWeight {
        assert EdgesFrom(items, n, minWeight).edges == g0.edges + [Edge(it.0.0, it.0.1, it.1)];
      }
    }
  }

  /** Every edge comes from a counter item at or above the threshold. */
  lemma {:induction false} EdgesFromSound(items: Assoc<(string, string)>, n: nat, minWeight: int)
    requires n <= |items|
    ensures forall e :: e in EdgesFrom(items, n, minWeight).edges ==>
      (exists k :: 0 <= k < n && items[k].1 >= minWeight && e == Edge(items[k].0.0, items[k].0.1, items[k].1))
  {
    if n > 0 {
      EdgesFromSound(items, n - 1, minWeight);
      var g0 := EdgesFrom(items, n - 1, minWeight);
      var g := EdgesFrom(items, n, minWeight);
      var it := items[n - 1];
      forall e' | e' in g.edges
        ensures exists k :: 0 <= k < n && items[k].1 >= minWeight && e' == Edge(items[k].0.0, items[k].0.1, items[k].1)
      {
        if it.1 >= minWeight && e' == Edge(it.0.0, it.0.1, it.1) {
          assert items[n - 1].1 >= minWeight;
        } else {
          assert g.edges == g0.edges || g.edges == g0.edges + [Edge(it.0.0, it.0.1, it.1)];
          assert e' in g0.edges;
        }
      }
    }
  }

  /** The nodes are exactly the endpoints of the edges, each listed once. */
  lemma {:induction false} EdgesFromNodes(items: Assoc<(string, string)>, n: nat, minWeight: int)
    requires n <= |items|
    ensures var g := EdgesFrom(items, n, minWeight);
      && (set w | w in g.nodes) == Endpoints(g.edges)
      && (forall i, j :: 0 <= i < j < |g.nodes| ==> g.nodes[i] != g.nodes[j])
  {
    if n > 0 {
      EdgesFromNodes(items, n - 1, minWeight);
      var g0 := EdgesFrom(items, n - 1, minWeight);
      var it := items[n - 1];
      if it.1 >= minWeight {
        AddEdgeNodes(g0, it.0.0, it.0.1, it.1);
      }
    }
  }

  /** Adding an edge keeps the nodes equal to the endpoints, each listed once. */
  lemma AddEdgeNodes(g: Graph, a: string, b: string, w: int)
    requires (set v | v in g.nodes) == Endpoints(g.edges)
    requires forall i, j :: 0 <= i < j < |g.nodes| ==> g.nodes[i] != g.nodes[j]
    ensures var g' := AddEdge(g, a, b, w);
      && (set v | v in g'.nodes) == Endpoints(g'.edges)
      && (forall i, j :: 0 <= i < j < |g'.nodes| ==> g'.nodes[i] != g'.nodes[j])
  {
    var n1 := if a in g.nodes then g.nodes else g.nodes + [a];
    var n2 := if b in n1 then n1 else n1 + [b];
    AddNode(g.nodes, a);
    AddNode(n1, b);
    EndpointsSnoc(g.edges, Edge(a, b, w));
    assert AddEdge(g, a, b, w) == Graph(n2, g.edges + [Edge(a, b, w)]);
  }

  lemma EndpointsSnoc(edges: seq<Edge>, e: Edge)
    ensures Endpoints(edges + [e]) == Endpoints(edges) + {e.a, e.b}
  {
    var es := edges + [e];
    assert forall x :: x in es <==> x in edges || x == e;
    assert (set x | x in es :: x.a) == (set x | x in edges :: x.a) + {e.a};
    assert (set x | x in es :: x.b) == (set x | x in edges :: x.b) + {e.b};
  }

  /** `add_edge` adds an endpoint to the node list only when it is missing. */
  lemma AddNode(nodes: seq<string>, x: string)
    requires forall i, j :: 0 <= i < j < |nodes| ==> nodes[i] != nodes[j]
    ensures var n := if x in nodes then nodes else nodes + [x];
      && (set v | v in n) == (set v | v in nodes) + {x}
      && (forall i, j :: 0 <= i < j < |n| ==> n[i] != n[j])
  {
  }

  /** With distinct keys in the counter, the weight of each edge is the counter's
      value for that key. */
  lemma EdgeWeightIsCount(items: Assoc<(string, string)>, minWeight: int, e: Edge)
    requires DistinctKeys(items)
    requires e in EdgesFrom(items, |items|, minWeight).edges
    ensures e.weight == Get(items, (e.a, e.b)) && e.weight >= minWeight
  {
    EdgesFromFacts(items, |items|, minWeight);
    var k :| 0 <= k < |items| && items[k].1 >= minWeight && e == Edge(items[k].0.0, items[k].0.1, items[k].1);
    GetDistinct(items, k);
  }

  /** The graph of a text has the edge {a, b} with weight w exactly when the
      sorted pair of a and b was counted w >= minWeight times; no node is isolated. */
  lemma AdjacencyGraphFacts(text: string, minWeight: int, a: string, b: string)
    ensures var g := AdjacencyGraph(text, minWeight);
      var ss := Sentences(text);
      var count := multiset(AllPairs(ss, |ss|))[PairKey(a, b)];
      && (count >= 1 && count >= minWeight ==> Edge(PairKey(a, b).0, PairKey(a, b).1, count) in g.edges)
      && (forall e :: e in g.edges ==> e.weight == multiset(AllPairs(ss, |ss|))[(e.a, e.b)] >= minWeight)
      && (forall e :: e in g.edges ==> e.weight >= 1 && LexLe(e.a, e.b))
      && (set w | w in g.nodes) == Endpoints(g.edges)
  {
    var ss := Sentences(text);
    var keys := AllPairs(ss, |ss|);
    var items := Tally(keys);
    var g := AdjacencyGraph(text, minWeight);
    TallyKeys(keys);
    EdgesFromFacts(items, |items|, minWeight);
    var key := PairKey(a, b);
    TallyGet(keys, key);
    if multiset(keys)[key] >= 1 {
      assert key in KeySet(items);
      var p :| p in items && p.0 == key;
      var k :| 0 <= k < |items| && items[k] == p;
      GetDistinct(items, k);
    }
    forall e | e in g.edges
      ensures e.weight == multiset(keys)[(e.a, e.b)] >= minWeight && e.weight >= 1 && LexLe(e.a, e.b)
    {
      var k :| 0 <= k < |items| && items[k].1 >= minWeight && e == Edge(items[k].0.0, items[k].0.1, items[k].1);
      GetDistinct(items, k);
      TallyGet(keys, (e.a, e.b));
      assert items[k] in items;
      assert (e.a, e.b) in keys;
      AllPairsCanonical(ss, |ss|, (e.a, e.b));
    }
  }

  /** Every counted key is sorted. */
  lemma {:induction false} AllPairsCanonical(ss: seq<string>, n: nat, key: (string, string))
    requires n <= |ss| && key in AllPairs(ss, n)
    ensures LexLe(key.0, key.1)
  {
    var ws := SentenceWords(ss[n - 1]);
    assert AllPairs(ss, n) == AllPairs(ss, n - 1) + SentencePairs(ws);
    if key in AllPairs(ss, n - 1) {
      AllPairsCanonical(ss, n - 1, key);
    } else {
      assert key in SentencePairs(ws);
      assert |ws| >= 2;
      PairsUpToCanonical(ws, |ws| - 1, key);
    }
  }

  lemma {:induction false} PairsUpToCanonical(ws: seq<string>, i: nat, key: (string, string))
    requires i == 0 || i < |ws|
    requires key in PairsUpTo(ws, i)
    ensures LexLe(key.0, key.1)
  {
    assert i > 0;
    if key in PairsUpTo(ws, i - 1) {
      PairsUpToCanonical(ws, i - 1, key);
    } else {
      assert Countable(ws[i - 1], ws[i]) && key == PairKey(ws[i - 1], ws[i]);
      PairKeyCanonical(ws[i - 1], ws[i]);
    }
  }
}
