/** The counting logic of projekt_3/analiza_semantyczna.py: loading the text,
    counting nouns, adjectives and verbs among tagged tokens, counting
    adjective-noun and verb-noun neighbours, and the edge list, matrix and
    listings derived from those counts. The tagged document is a parameter. */
module Semantic {
  import opened Text
  import opened Counts

  // ---------------------------------------------------------------------------
  // wczytaj_korpus

  /** The first `limit` `\b`-bounded runs of ASCII letters in the lower-cased
      text. */
  function LoadedWords(text: string, limit: int): seq<string> {
    PySlice(FindRuns(Ascii, LowerString(text)), limit)
  }

  /** `wczytaj_korpus`: those words joined by single spaces. */
  function LoadText(text: string, limit: int): string {
    Join(LoadedWords(text, limit))
  }

  /** Each run found in the lower-cased text is a non-empty word of `a`..`z`. */
  lemma LoweredRunsAreLower(text: string)
    ensures forall w :: w in FindRuns(Ascii, LowerString(text)) ==>
      |w| > 0 && forall k :: 0 <= k < |w| ==> 'a' <= w[k] <= 'z'
  {
    FindRunsFromText(Ascii, LowerString(text));
    LowerStringChars(text);
  }

  /** Splitting the loaded text on whitespace gives back exactly the loaded
      words, and each of them is a non-empty run of letters `a`..`z`. */
  lemma LoadTextWords(text: string, limit: int)
    ensures SplitWs(LoadText(text, limit)) == LoadedWords(text, limit)
    ensures forall w :: w in LoadedWords(text, limit) ==>
      |w| > 0 && forall k :: 0 <= k < |w| ==> 'a' <= w[k] <= 'z'
  {
    var ws := LoadedWords(text, limit);
    LoweredRunsAreLower(text);
    assert forall w :: w in ws ==> w in FindRuns(Ascii, LowerString(text));
    forall k | 0 <= k < |ws| ensures IsField(ws[k]) {
      assert ws[k] in ws;
    }
    SplitJoin(ws);
  }

  // ---------------------------------------------------------------------------
  // analiza_pos

  /** A token of the tagged document: its text and its part of speech. */
  datatype Token = Token(text: string, pos: string)

  /** The texts that go into the counter for `pos`, in document order: tokens
      tagged `pos` whose text is longer than two characters. */
  function ClassTexts(doc: seq<Token>, pos: string): seq<string> {
    if doc == [] then []
    else
      var t := doc[|doc| - 1];
      ClassTexts(doc[..|doc| - 1], pos) + (if t.pos == pos && |t.text| > 2 then [t.text] else [])
  }

  lemma ClassTextsSnoc(doc: seq<Token>, i: nat, pos: string)
    requires i < |doc|
    ensures ClassTexts(doc[..i + 1], pos)
      == ClassTexts(doc[..i], pos) + (if doc[i].pos == pos && |doc[i].text| > 2 then [doc[i].text] else [])
  {
    assert doc[..i + 1][..i] == doc[..i];
  }

  /** The counter for `pos` after one more token: bumped when the token belongs
      to `pos`, unchanged otherwise. */
  lemma CounterStep(doc: seq<Token>, i: nat, pos: string)
    requires i < |doc|
    ensures doc[i].pos == pos && |doc[i].text| > 2 ==>
      Tally(ClassTexts(doc[..i + 1], pos)) == Bump(Tally(ClassTexts(doc[..i], pos)), doc[i].text)
    ensures !(doc[i].pos == pos && |doc[i].text| > 2) ==>
      Tally(ClassTexts(doc[..i + 1], pos)) == Tally(ClassTexts(doc[..i], pos))
  {
    ClassTextsSnoc(doc, i, pos);
    if doc[i].pos == pos && |doc[i].text| > 2 {
      TallySnoc(ClassTexts(doc[..i], pos), doc[i].text);
    } else {
      assert ClassTexts(doc[..i + 1], pos) == ClassTexts(doc[..i], pos);
    }
  }

  /** A word is counted for `pos` exactly when some token tagged `pos` carries it
      and it is longer than two characters. */
  lemma {:induction false} ClassTextsMembers(doc: seq<Token>, pos: string, w: string)
    ensures w in ClassTexts(doc, pos) <==>
      |w| > 2 && exists k :: 0 <= k < |doc| && doc[k].text == w && doc[k].pos == pos
  {
    if doc != [] {
      var init := doc[..|doc| - 1];
      ClassTextsMembers(init, pos, w);
      assert forall k :: 0 <= k < |init| ==> init[k] == doc[k];
    }
  }

  /** The three counters never share a token: together they count at most one
      word per token. */
  lemma {:induction false} ClassesShareNoToken(doc: seq<Token>)
    ensures |ClassTexts(doc, "NOUN")| + |ClassTexts(doc, "ADJ")| + |ClassTexts(doc, "VERB")| <= |doc|
  {
    if doc != [] {
      ClassesShareNoToken(doc[..|doc| - 1]);
    }
  }

  /** `[word for word, _ in counter.most_common(100)]` for one class. */
  function TopWords(doc: seq<Token>, pos: string): seq<string> {
    Keys(MostCommon(ClassTexts(doc, pos), 100))
  }

  /** A class list holds at most 100 distinct words counted for that class, in
      order of count with ties in first-occurrence order, and any counted word
      left out has a count no larger than every listed one, and occurs after
      every listed word of the same count. */
  lemma TopWordsFacts(doc: seq<Token>, pos: string)
    ensures var ws := TopWords(doc, pos);
      var cls := ClassTexts(doc, pos);
      && |ws| <= 100
      && (forall i, j :: 0 <= i < j < |ws| ==> ws[i] != ws[j])
      && (forall k :: 0 <= k < |ws| ==> ws[k] in cls)
      && (forall i, j :: 0 <= i < j < |ws| ==> multiset(cls)[ws[i]] >= multiset(cls)[ws[j]])
      && (forall i, j :: 0 <= i < j < |ws| && multiset(cls)[ws[i]] == multiset(cls)[ws[j]] ==>
            FirstIndex(cls, ws[i]) < FirstIndex(cls, ws[j]))
      && (forall x :: x in cls && x !in ws ==>
            && |ws| == 100
            && (forall k :: 0 <= k < |ws| ==> multiset(cls)[ws[k]] >= multiset(cls)[x])
            && (forall k :: 0 <= k < |ws| && multiset(cls)[ws[k]] == multiset(cls)[x] ==>
                  FirstIndex(cls, ws[k]) < FirstIndex(cls, x)))
  {
    MostCommonFacts(ClassTexts(doc, pos), 100);
  }

  /** Every listed word is longer than two characters and was tagged with the
      class at some position of the document. */
  lemma TopWordsFromDoc(doc: seq<Token>, pos: string)
    ensures var ws := TopWords(doc, pos);
      forall k :: 0 <= k < |ws| ==>
        |ws[k]| > 2 && exists t :: 0 <= t < |doc| && doc[t].text == ws[k] && doc[t].pos == pos
  {
    var ws := TopWords(doc, pos);
    MostCommonKept(ClassTexts(doc, pos), 100);
    forall k | 0 <= k < |ws|
      ensures |ws[k]| > 2 && exists t :: 0 <= t < |doc| && doc[t].text == ws[k] && doc[t].pos == pos
    {
      assert ws[k] in ClassTexts(doc, pos);
      ClassTextsMembers(doc, pos, ws[k]);
    }
  }

  // ---------------------------------------------------------------------------
  // The nested counters polaczenia_adj_noun and polaczenia_verb_noun

  /** `defaultdict(lambda: defaultdict(int))`: each inner counter keeps its
      insertion order, which the listings' stable sort depends on. */
  type Relation = map<string, Assoc<string>>

  /** `rel[a].get(b, 0)`, guarded by `a in rel` as every reader does. */
  function Count2(rel: Relation, a: string, b: string): int {
    if a in rel then Get(rel[a], b) else 0
  }

  /** `rel[a][b] += 1`, creating the inner counter and the entry when missing. */
  function Bump2(rel: Relation, a: string, b: string): Relation {
    rel[a := Bump(if a in rel then rel[a] else [], b)]
  }

  /** Every stored inner counter is non-empty, has distinct keys and only
      positive counts: entries come into being only through `+= 1`. */
  ghost predicate WellFormed(rel: Relation) {
    forall a :: a in rel ==>
      |rel[a]| > 0 && DistinctKeys(rel[a]) && forall p :: p in rel[a] ==> p.1 >= 1
  }

  /** One bump adds one to one count, keeps the counters well formed and stores
      an inner counter for `a` and no other new word. */
  lemma Bump2Facts(rel: Relation, a: string, b: string)
    ensures forall x, y :: Count2(Bump2(rel, a, b), x, y) == Count2(rel, x, y) + (if x == a && y == b then 1 else 0)
    ensures WellFormed(rel) ==> WellFormed(Bump2(rel, a, b))
    ensures Bump2(rel, a, b).Keys == rel.Keys + {a}
  {
    var inner := if a in rel then rel[a] else [];
    forall x, y ensures Count2(Bump2(rel, a, b), x, y) == Count2(rel, x, y) + (if x == a && y == b then 1 else 0) {
      if x == a {
        BumpGet(inner, b, y);
      }
    }
    if WellFormed(rel) {
      BumpDistinct(inner, b);
      BumpPositive(inner, b);
      assert |Bump(inner, b)| > 0 by {
        BumpKeySet(inner, b);
        assert b in KeySet(Bump(inner, b));
      }
    }
  }

  /** Position `i` of `znajdz_polaczenia` on the adjective-noun counter. */
  function AdjStep(rel: Relation, doc: seq<Token>, nouns: seq<string>, adjs: seq<string>, i: nat): Relation
    requires i < |doc|
  {
    if doc[i].text in nouns && i > 0 && doc[i - 1].text in adjs then Bump2(rel, doc[i - 1].text, doc[i].text)
    else rel
  }

  /** Position `i` of `znajdz_polaczenia` on the verb-noun counter: the verb
      before the noun, then the verb after it. */
  function VerbStep(rel: Relation, doc: seq<Token>, nouns: seq<string>, verbs: seq<string>, i: nat): Relation
    requires i < |doc|
  {
    if doc[i].text in nouns then
      var before := if i > 0 && doc[i - 1].text in verbs then Bump2(rel, doc[i - 1].text, doc[i].text) else rel;
      if i < |doc| - 1 && doc[i + 1].text in verbs then Bump2(before, doc[i + 1].text, doc[i].text) else before
    else rel
  }

  /** The adjective-noun counter after positions `0..i-1`, starting from `rel`. */
  function ScanAdj(rel: Relation, doc: seq<Token>, nouns: seq<string>, adjs: seq<string>, i: nat): Relation
    requires i <= |doc|
  {
    if i == 0 then rel else AdjStep(ScanAdj(rel, doc, nouns, adjs, i - 1), doc, nouns, adjs, i - 1)
  }

  /** The verb-noun counter after positions `0..i-1`, starting from `rel`. */
  function ScanVerb(rel: Relation, doc: seq<Token>, nouns: seq<string>, verbs: seq<string>, i: nat): Relation
    requires i <= |doc|
  {
    if i == 0 then rel else VerbStep(ScanVerb(rel, doc, nouns, verbs, i - 1), doc, nouns, verbs, i - 1)
  }

  /** Position `j` holds noun `b` right after adjective `a`. */
  predicate AdjNounAt(doc: seq<Token>, nouns: seq<string>, adjs: seq<string>, j: nat, a: string, b: string)
    requires j < |doc|
  {
    j >= 1 && doc[j].text == b && b in nouns && doc[j - 1].text == a && a in adjs
  }

  /** Position `j` holds noun `b` right after verb `v`. */
  predicate VerbNounAt(doc: seq<Token>, nouns: seq<string>, verbs: seq<string>, j: nat, v: string, b: string)
    requires j < |doc|
  {
    j >= 1 && doc[j].text == b && b in nouns && doc[j - 1].text == v && v in verbs
  }

  /** Position `j` holds noun `b` right before verb `v`. */
  predicate NounVerbAt(doc: seq<Token>, nouns: seq<string>, verbs: seq<string>, j: nat, v: string, b: string)
    requires j < |doc|
  {
    j + 1 < |doc| && doc[j].text == b && b in nouns && doc[j + 1].text == v && v in verbs
  }

  ghost function AdjBefore(doc: seq<Token>, nouns: seq<string>, adjs: seq<string>, i: nat, a: string, b: string): set<nat>
    requires i <= |doc|
  {
    set j: nat | j < i && AdjNounAt(doc, nouns, adjs, j, a, b)
  }

  ghost function VerbBefore(doc: seq<Token>, nouns: seq<string>, verbs: seq<string>, i: nat, v: string, b: string): set<nat>
    requires i <= |doc|
  {
    set j: nat | j < i && VerbNounAt(doc, nouns, verbs, j, v, b)
  }

  ghost function VerbAfter(doc: seq<Token>, nouns: seq<string>, verbs: seq<string>, i: nat, v: string, b: string): set<nat>
    requires i <= |doc|
  {
    set j: nat | j < i && NounVerbAt(doc, nouns, verbs, j, v, b)
  }

  /** One position adds one for each way it links `v` and `b`. */
  lemma VerbStepCount(rel: Relation, doc: seq<Token>, nouns: seq<string>, verbs: seq<string>, j: nat, v: string, b: string)
    requires j < |doc|
    ensures Count2(VerbStep(rel, doc, nouns, verbs, j), v, b) == Count2(rel, v, b)
      + (if VerbNounAt(doc, nouns, verbs, j, v, b) then 1 else 0)
      + (if NounVerbAt(doc, nouns, verbs, j, v, b) then 1 else 0)
  {
    if doc[j].text in nouns {
      var mid := if j > 0 && doc[j - 1].text in verbs then Bump2(rel, doc[j - 1].text, doc[j].text) else rel;
      if j > 0 && doc[j - 1].text in verbs {
        Bump2Facts(rel, doc[j - 1].text, doc[j].text);
      }
      if j < |doc| - 1 && doc[j + 1].text in verbs {
        Bump2Facts(mid, doc[j + 1].text, doc[j].text);
      }
    }
  }

  lemma AdjStepCount(rel: Relation, doc: seq<Token>, nouns: seq<string>, adjs: seq<string>, j: nat, a: string, b: string)
    requires j < |doc|
    ensures Count2(AdjStep(rel, doc, nouns, adjs, j), a, b) == Count2(rel, a, b)
      + (if AdjNounAt(doc, nouns, adjs, j, a, b) then 1 else 0)
  {
    if doc[j].text in nouns && j > 0 && doc[j - 1].text in adjs {
      Bump2Facts(rel, doc[j - 1].text, doc[j].text);
    }
  }

  /** `polaczenia_adj_noun[a][b]` grows by exactly the number of positions where
      noun `b` directly follows adjective `a`. */
  lemma {:induction false} ScanAdjCounts(rel: Relation, doc: seq<Token>, nouns: seq<string>, adjs: seq<string>,
                                         i: nat, a: string, b: string)
    requires i <= |doc|
    ensures Count2(ScanAdj(rel, doc, nouns, adjs, i), a, b) == Count2(rel, a, b) + |AdjBefore(doc, nouns, adjs, i, a, b)|
  {
    if i > 0 {
      var j := i - 1;
      ScanAdjCounts(rel, doc, nouns, adjs, j, a, b);
      AdjStepCount(ScanAdj(rel, doc, nouns, adjs, j), doc, nouns, adjs, j, a, b);
      if AdjNounAt(doc, nouns, adjs, j, a, b) {
        assert AdjBefore(doc, nouns, adjs, i, a, b) == AdjBefore(doc, nouns, adjs, j, a, b) + {j};
      } else {
        assert AdjBefore(doc, nouns, adjs, i, a, b) == AdjBefore(doc, nouns, adjs, j, a, b);
      }
    }
  }

  /** `polaczenia_verb_noun[v][b]` grows by one for each position where noun `b`
      follows verb `v` and one for each where it precedes `v`; a noun between two
      occurrences of the same verb adds two. */
  lemma {:induction false} ScanVerbCounts(rel: Relation, doc: seq<Token>, nouns: seq<string>, verbs: seq<string>,
                                          i: nat, v: string, b: string)
    requires i <= |doc|
    ensures Count2(ScanVerb(rel, doc, nouns, verbs, i), v, b)
      == Count2(rel, v, b) + |VerbBefore(doc, nouns, verbs, i, v, b)| + |VerbAfter(doc, nouns, verbs, i, v, b)|
  {
    if i > 0 {
      var j := i - 1;
      ScanVerbCounts(rel, doc, nouns, verbs, j, v, b);
      VerbStepCount(ScanVerb(rel, doc, nouns, verbs, j), doc, nouns, verbs, j, v, b);
      if VerbNounAt(doc, nouns, verbs, j, v, b) {
        assert VerbBefore(doc, nouns, verbs, i, v, b) == VerbBefore(doc, nouns, verbs, j, v, b) + {j};
      } else {
        assert VerbBefore(doc, nouns, verbs, i, v, b) == VerbBefore(doc, nouns, verbs, j, v, b);
      }
      if NounVerbAt(doc, nouns, verbs, j, v, b) {
        assert VerbAfter(doc, nouns, verbs, i, v, b) == VerbAfter(doc, nouns, verbs, j, v, b) + {j};
      } else {
        assert VerbAfter(doc, nouns, verbs, i, v, b) == VerbAfter(doc, nouns, verbs, j, v, b);
      }
    }
  }

  /** Scanning keeps every stored count positive and every inner counter
      non-empty with distinct keys. */
  lemma {:induction false} ScansWellFormed(rel: Relation, doc: seq<Token>, nouns: seq<string>, others: seq<string>, i: nat)
    requires i <= |doc| && WellFormed(rel)
    ensures WellFormed(ScanAdj(rel, doc, nouns, others, i))
    ensures WellFormed(ScanVerb(rel, doc, nouns, others, i))
  {
    if i > 0 {
      var j := i - 1;
      ScansWellFormed(rel, doc, nouns, others, j);
      var pa := ScanAdj(rel, doc, nouns, others, j);
      var pv := ScanVerb(rel, doc, nouns, others, j);
      if doc[j].text in nouns && j > 0 && doc[j - 1].text in others {
        Bump2Facts(pa, doc[j - 1].text, doc[j].text);
        Bump2Facts(pv, doc[j - 1].text, doc[j].text);
      }
      if doc[j].text in nouns {
        var mid := if j > 0 && doc[j - 1].text in others then Bump2(pv, doc[j - 1].text, doc[j].text) else pv;
        if j < |doc| - 1 && doc[j + 1].text in others {
          Bump2Facts(mid, doc[j + 1].text, doc[j].text);
        }
      }
    }
  }

  // ---------------------------------------------------------------------------
  // get_color

  /** The four edge and cell colours, `#e74c3c`, `#f39c12`, `#27ae60` and
      `#3498db` in that order. */
  datatype Shade = Red | Orange | Green | Blue

  function Hex(s: Shade): string {
    match s
    case Red => "#e74c3c"
    case Orange => "#f39c12"
    case Green => "#27ae60"
    case Blue => "#3498db"
  }

  /** `get_color`: total over the integers; a negative count falls through to the
      `count <= 10` branch. */
  function ColorOf(count: int): (s: Shade)
    ensures s == Red <==> count == 0
    ensures s == Orange <==> count == 1
    ensures s == Green <==> (count < 0 || 2 <= count <= 10)
    ensures s == Blue <==> count > 10
  {
    if count == 0 then Red
    else if count == 1 then Orange
    else if count <= 10 then Green
    else Blue
  }

  function ShadeRank(s: Shade): nat {
    match s
    case Red => 0
    case Orange => 1
    case Green => 2
    case Blue => 3
  }

  /** On counts that can occur, a larger count never gets an earlier colour of the
      legend, and the four colours are told apart by their codes. */
  lemma ColorMonotone(c1: int, c2: int)
    requires 0 <= c1 <= c2
    ensures ShadeRank(ColorOf(c1)) <= ShadeRank(ColorOf(c2))
    ensures Hex(ColorOf(c1)) == Hex(ColorOf(c2)) <==> ColorOf(c1) == ColorOf(c2)
  {
    var h1, h2 := Hex(ColorOf(c1)), Hex(ColorOf(c2));
    if ColorOf(c1) != ColorOf(c2) {
      assert h1[1..3] != h2[1..3] || h1[3..] != h2[3..];
    }
  }

  // ---------------------------------------------------------------------------
  // The bipartite edge list of wizualizuj_graf_dwudzielny

  datatype Link = Link(a: string, b: string, weight: int)

  /** The edges the inner loop adds for `a`, over `setB` in order. */
  function RowLinks(rel: Relation, a: string, setB: seq<string>): seq<Link> {
    if setB == [] then []
    else
      var b := setB[|setB| - 1];
      var count := Count2(rel, a, b);
      RowLinks(rel, a, setB[..|setB| - 1]) + (if count > 0 then [Link(a, b, count)] else [])
  }

  /** The edges the nested loop adds, row by row over `setA`; a word absent from
      `rel` adds none. */
  function Links(rel: Relation, setA: seq<string>, setB: seq<string>): seq<Link> {
    if setA == [] then []
    else
      var a := setA[|setA| - 1];
      Links(rel, setA[..|setA| - 1], setB) + (if a in rel then RowLinks(rel, a, setB) else [])
  }

  lemma {:induction false} RowLinksMembers(rel: Relation, a: string, setB: seq<string>, e: Link)
    ensures e in RowLinks(rel, a, setB) <==>
      e.a == a && e.b in setB && Count2(rel, a, e.b) > 0 && e.weight == Count2(rel, a, e.b)
  {
    if setB != [] {
      var init := setB[..|setB| - 1];
      RowLinksMembers(rel, a, init, e);
      assert setB == init + [setB[|setB| - 1]];
    }
  }

  /** An edge is drawn exactly for a pair from the two slices whose count is
      positive, and it carries that count as its weight. */
  lemma {:induction false} LinksMembers(rel: Relation, setA: seq<string>, setB: seq<string>, e: Link)
    ensures e in Links(rel, setA, setB) <==>
      e.a in setA && e.b in setB && Count2(rel, e.a, e.b) > 0 && e.weight == Count2(rel, e.a, e.b)
  {
    if setA != [] {
      var init, a := setA[..|setA| - 1], setA[|setA| - 1];
      LinksMembers(rel, init, setB, e);
      RowLinksMembers(rel, a, setB, e);
      assert setA == init + [a];
    }
  }

  // ---------------------------------------------------------------------------
  // The listings of generuj_listy_polaczen

  /** For each word of `words` that has an inner counter, in list order: the word
      and its nouns sorted by count, descending. */
  function Listing(words: seq<string>, rel: Relation): seq<(string, Assoc<string>)> {
    if words == [] then []
    else
      var w := words[|words| - 1];
      Listing(words[..|words| - 1], rel) + (if w in rel then [(w, SortDesc(rel[w]))] else [])
  }

  /** The listing covers exactly the words of the list that have an inner
      counter, in list order; each inner list holds the same entries as the
      counter, by count descending, with equal counts in insertion order. */
  lemma {:induction false} ListingFacts(words: seq<string>, rel: Relation)
    requires WellFormed(rel)
    requires forall i, j :: 0 <= i < j < |words| ==> words[i] != words[j]
    ensures forall w :: w in words && w in rel ==>
      exists k :: 0 <= k < |Listing(words, rel)| && Listing(words, rel)[k].0 == w
    ensures var out := Listing(words, rel);
      && (forall k :: 0 <= k < |out| ==> out[k].0 in words && out[k].0 in rel)
      && (forall i, j :: 0 <= i < j < |out| ==> FirstIndex(words, out[i].0) < FirstIndex(words, out[j].0))
      && (forall k :: 0 <= k < |out| ==>
            && multiset(out[k].1) == multiset(rel[out[k].0])
            && NonIncreasing(out[k].1)
            && TiesInFirstOccurrenceOrder(out[k].1, Keys(rel[out[k].0])))
  {
    ListingOrder(words, rel);
    ListingSorted(words, rel);
    forall x | x in words && x in rel
      ensures exists k :: 0 <= k < |Listing(words, rel)| && Listing(words, rel)[k].0 == x
    {
      ListingCovers(words, rel, x);
    }
  }

  /** Listed words come from the list, have a counter, and keep the list's order. */
  lemma {:induction false} ListingOrder(words: seq<string>, rel: Relation)
    requires forall i, j :: 0 <= i < j < |words| ==> words[i] != words[j]
    ensures var out := Listing(words, rel);
      && (forall k :: 0 <= k < |out| ==> out[k].0 in words && out[k].0 in rel)
      && (forall i, j :: 0 <= i < j < |out| ==> FirstIndex(words, out[i].0) < FirstIndex(words, out[j].0))
  {
    if words != [] {
      var init, w := words[..|words| - 1], words[|words| - 1];
      ListingOrder(init, rel);
      assert words == init + [w];
      assert w !in init;
      FirstIndexAfter(init, w);
      var out, prev := Listing(words, rel), Listing(init, rel);
      assert forall k :: 0 <= k < |prev| ==> out[k] == prev[k];
      forall x | x in init ensures x in words && FirstIndex(words, x) == FirstIndex(init, x) {
        FirstIndexPrefix(init, [w], x);
      }
      forall k | 0 <= k < |out| ensures out[k].0 in words && out[k].0 in rel {
        if k < |prev| {
          assert out[k] == Listing(init, rel)[k];
        } else {
          assert out == prev + [(w, SortDesc(rel[w]))];
        }
      }
    }
  }

  /** Each inner list holds the counter's entries by count, descending, with equal
      counts in insertion order. */
  lemma {:induction false} ListingSorted(words: seq<string>, rel: Relation)
    requires WellFormed(rel)
    ensures var out := Listing(words, rel);
      forall k :: 0 <= k < |out| ==>
        && out[k].0 in rel
        && multiset(out[k].1) == multiset(rel[out[k].0])
        && NonIncreasing(out[k].1)
        && TiesInFirstOccurrenceOrder(out[k].1, Keys(rel[out[k].0]))
  {
    if words != [] {
      var init, w := words[..|words| - 1], words[|words| - 1];
      ListingSorted(init, rel);
      var out, prev := Listing(words, rel), Listing(init, rel);
      if w in rel {
        SortDescFacts(rel[w]);
        SortDescKeepsTies(rel[w]);
      }
      forall k | 0 <= k < |out|
        ensures && out[k].0 in rel
                && multiset(out[k].1) == multiset(rel[out[k].0])
                && NonIncreasing(out[k].1)
                && TiesInFirstOccurrenceOrder(out[k].1, Keys(rel[out[k].0]))
      {
        if k < |prev| {
          assert out[k] == Listing(init, rel)[k];
        } else {
          assert out == prev + [(w, SortDesc(rel[w]))];
        }
      }
    }
  }

  /** A word is listed exactly when it is in the list and has a counter. */
  lemma {:induction false} ListingCovers(words: seq<string>, rel: Relation, x: string)
    ensures (x in words && x in rel) <==> exists k :: 0 <= k < |Listing(words, rel)| && Listing(words, rel)[k].0 == x
  {
    if words != [] {
      var init, w := words[..|words| - 1], words[|words| - 1];
      ListingCovers(init, rel, x);
      var out, prev := Listing(words, rel), Listing(init, rel);
      assert words == init + [w];
      assert forall y :: y in init ==> y in words;
      assert forall k :: 0 <= k < |prev| ==> out[k] == prev[k];
      if x in words && x in rel {
        if x == w {
          assert out[|out| - 1].0 == x;
        } else {
          assert x in init;
          var k :| 0 <= k < |prev| && prev[k].0 == x;
          assert out[k].0 == x;
        }
      }
      if exists k :: 0 <= k < |out| && out[k].0 == x {
        var k :| 0 <= k < |out| && out[k].0 == x;
        if k < |prev| {
          assert Listing(init, rel)[k].0 == x;
          assert exists j :: 0 <= j < |Listing(init, rel)| && Listing(init, rel)[j].0 == x;
        } else {
          assert out[k] == (w, SortDesc(rel[w]));
        }
        assert x in words && x in rel;
      }
    }
  }

  /** A new last item comes after every earlier one. */
  lemma FirstIndexAfter(init: seq<string>, w: string)
    requires w !in init
    ensures w in init + [w] && FirstIndex(init + [w], w) == |init|
    ensures forall x :: x in init ==> FirstIndex(init + [w], x) < |init|
  {
    assert (init + [w])[|init|] == w;
    forall x | x in init ensures FirstIndex(init + [w], x) < |init| {
      FirstIndexPrefix(init, [w], x);
    }
  }

  // ---------------------------------------------------------------------------
  // The class

  class SemanticAnalysis {
    /** `self.rzeczowniki`, `self.przymiotniki`, `self.czasowniki`. */
    var nouns: seq<string>
    var adjectives: seq<string>
    var verbs: seq<string>
    /** `self.polaczenia_adj_noun` and `self.polaczenia_verb_noun`. */
    var adjNoun: Relation
    var verbNoun: Relation

    ghost predicate Valid()
      reads this
    {
      WellFormed(adjNoun) && WellFormed(verbNoun)
    }

    constructor ()
      ensures Valid()
      ensures nouns == [] && adjectives == [] && verbs == []
      ensures adjNoun == map[] && verbNoun == map[]
    {
      nouns, adjectives, verbs := [], [], [];
      adjNoun, verbNoun := map[], map[];
    }

    /** `analiza_pos`: count each token longer than two characters under its part
        of speech, then keep the 100 most common words of each class. */
    method AnalyzePos(doc: seq<Token>)
      requires Valid()
      modifies this`nouns, this`adjectives, this`verbs
      ensures Valid()
      ensures nouns == TopWords(doc, "NOUN")
      ensures adjectives == TopWords(doc, "ADJ")
      ensures verbs == TopWords(doc, "VERB")
    {
      assert "NOUN"[0] != "VERB"[0] && |"NOUN"| != |"ADJ"| && |"VERB"| != |"ADJ"|;
      var nounCounter: Assoc<string> := [];
      var adjCounter: Assoc<string> := [];
      var verbCounter: Assoc<string> := [];
      var i := 0;
      while i < |doc|
        invariant 0 <= i <= |doc|
        invariant nounCounter == Tally(ClassTexts(doc[..i], "NOUN"))
        invariant adjCounter == Tally(ClassTexts(doc[..i], "ADJ"))
        invariant verbCounter == Tally(ClassTexts(doc[..i], "VERB"))
      {
        var token := doc[i];
        CounterStep(doc, i, "NOUN");
        CounterStep(doc, i, "ADJ");
        CounterStep(doc, i, "VERB");
        if token.pos == "NOUN" && |token.text| > 2 {
          nounCounter := Bump(nounCounter, token.text);
        } else if token.pos == "ADJ" && |token.text| > 2 {
          adjCounter := Bump(adjCounter, token.text);
        } else if token.pos == "VERB" && |token.text| > 2 {
          verbCounter := Bump(verbCounter, token.text);
        }
        i := i + 1;
      }
      assert doc[..i] == doc;
      nouns := Keys(MostCommonOf(nounCounter, 100));
      adjectives := Keys(MostCommonOf(adjCounter, 100));
      verbs := Keys(MostCommonOf(verbCounter, 100));
    }

    /** `znajdz_polaczenia`: for each noun position, count the adjective before it,
        the verb before it and the verb after it; the counters are not reset, so
        repeated calls add up. */
    method FindConnections(doc: seq<Token>)
      requires Valid()
      modifies this`adjNoun, this`verbNoun
      ensures Valid()
      ensures adjNoun == ScanAdj(old(adjNoun), doc, nouns, adjectives, |doc|)
      ensures verbNoun == ScanVerb(old(verbNoun), doc, nouns, verbs, |doc|)
    {
      var i := 0;
      while i < |doc|
        invariant 0 <= i <= |doc|
        invariant adjNoun == ScanAdj(old(adjNoun), doc, nouns, adjectives, i)
        invariant verbNoun == ScanVerb(old(verbNoun), doc, nouns, verbs, i)
      {
        var token := doc[i];
        if token.text in nouns {
          if i > 0 && doc[i - 1].text in adjectives {
            adjNoun := Bump2(adjNoun, doc[i - 1].text, token.text);
          }
          if i > 0 && doc[i - 1].text in verbs {
            verbNoun := Bump2(verbNoun, doc[i - 1].text, token.text);
          }
          if i < |doc| - 1 && doc[i + 1].text in verbs {
            verbNoun := Bump2(verbNoun, doc[i + 1].text, token.text);
          }
        }
        i := i + 1;
      }
      ScansWellFormed(old(adjNoun), doc, nouns, adjectives, |doc|);
      ScansWellFormed(old(verbNoun), doc, nouns, verbs, |doc|);
    }

    /** The counter and the word list that `typ` selects: `"adj-noun"` picks the
        adjectives, anything else the verbs. */
    function RelationFor(typ: string): Relation
      reads this
    {
      if typ == "adj-noun" then adjNoun else verbNoun
    }

    function WordsFor(typ: string): seq<string>
      reads this
    {
      if typ == "adj-noun" then adjectives else verbs
    }

    /** The edge loop of `wizualizuj_graf_dwudzielny` over the first `topN` words
        of each side, with the colour of each edge. */
    method BipartiteEdges(typ: string, topN: int) returns (edges: seq<Link>, colors: seq<Shade>)
      requires Valid()
      ensures edges == Links(RelationFor(typ), PySlice(WordsFor(typ), topN), PySlice(nouns, topN))
      ensures |colors| == |edges| && forall k :: 0 <= k < |edges| ==> colors[k] == ColorOf(edges[k].weight)
    {
      var rel := RelationFor(typ);
      var setA := PySlice(WordsFor(typ), topN);
      var setB := PySlice(nouns, topN);
      edges, colors := [], [];
      var i := 0;
      while i < |setA|
        invariant 0 <= i <= |setA|
        invariant edges == Links(rel, setA[..i], setB)
        invariant |colors| == |edges| && forall k :: 0 <= k < |edges| ==> colors[k] == ColorOf(edges[k].weight)
      {
        var a := setA[i];
        assert setA[..i + 1][..i] == setA[..i];
        if a in rel {
          var j := 0;
          while j < |setB|
            invariant 0 <= j <= |setB|
            invariant edges == Links(rel, setA[..i], setB) + RowLinks(rel, a, setB[..j])
            invariant |colors| == |edges| && forall k :: 0 <= k < |edges| ==> colors[k] == ColorOf(edges[k].weight)
          {
            var b := setB[j];
            assert setB[..j + 1][..j] == setB[..j];
            var count := Get(rel[a], b);
            if count > 0 {
              edges := edges + [Link(a, b, count)];
              colors := colors + [ColorOf(count)];
            }
            j := j + 1;
          }
          assert setB[..j] == setB;
        }
        i := i + 1;
      }
      assert setA[..i] == setA;
    }

    /** The fill of `generuj_macierz_polaczen` over the first 50 words of each
        side: cell `[i, j]` holds the count of the pair, zero when there is none. */
    method ConnectionMatrix(typ: string) returns (m: array2<int>)
      requires Valid()
      ensures fresh(m)
      ensures var setA := PySlice(WordsFor(typ), 50);
        var setB := PySlice(nouns, 50);
        && m.Length0 == |setA| && m.Length1 == |setB|
        && forall i, j :: 0 <= i < |setA| && 0 <= j < |setB| ==> m[i, j] == Count2(RelationFor(typ), setA[i], setB[j])
    {
      var rel := RelationFor(typ);
      var setA := PySlice(WordsFor(typ), 50);
      var setB := PySlice(nouns, 50);
      m := new int[|setA|, |setB|]((i, j) => 0);
      var i := 0;
      while i < |setA|
        invariant 0 <= i <= |setA|
        invariant forall r, c :: 0 <= r < |setA| && 0 <= c < |setB| ==>
          m[r, c] == if r < i then Count2(rel, setA[r], setB[c]) else 0
      {
        var a := setA[i];
        if a in rel {
          var j := 0;
          while j < |setB|
            invariant 0 <= j <= |setB|
            invariant forall r, c :: 0 <= r < |setA| && 0 <= c < |setB| ==>
              m[r, c] == if r < i || (r == i && c < j) then Count2(rel, setA[r], setB[c]) else 0
          {
            m[i, j] := Get(rel[a], setB[j]);
            j := j + 1;
          }
        }
        i := i + 1;
      }
    }

    /** The two listings `generuj_listy_polaczen` writes: adjectives and verbs,
        each with its nouns by count. */
    method Listings() returns (adjList: seq<(string, Assoc<string>)>, verbList: seq<(string, Assoc<string>)>)
      requires Valid()
      ensures adjList == Listing(adjectives, adjNoun)
      ensures verbList == Listing(verbs, verbNoun)
    {
      adjList := ListingOf(adjectives, adjNoun);
      verbList := ListingOf(verbs, verbNoun);
    }

    /** One listing loop: skip words without a counter, sort the others. */
    static method ListingOf(words: seq<string>, rel: Relation) returns (out: seq<(string, Assoc<string>)>)
      ensures out == Listing(words, rel)
    {
      out := [];
      var i := 0;
      while i < |words|
        invariant 0 <= i <= |words|
        invariant out == Listing(words[..i], rel)
      {
        var w := words[i];
        assert words[..i + 1][..i] == words[..i];
        if w in rel {
          out := out + [(w, SortDesc(rel[w]))];
        }
        i := i + 1;
      }
      assert words[..i] == words;
    }
  }
}
