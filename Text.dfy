/** Character classes and the string primitives both corpus analyses are built on:
    the `\b[letters]+\b` word extractor, `str.lower`, `str.split()`, `' '.join`,
    Python's `seq[:n]` slice and Python's ordering of strings. */
module Text {

  /** The two letter classes the extractors use: `[a-zA-ZąćęłńóśźżĄĆĘŁŃÓŚŹŻ]`
      in the frequency analysis and `[a-zA-Z]` in the semantic analysis. */
  datatype Alphabet = Polish | Ascii

  predicate IsAsciiLetter(c: char) {
    'a' <= c <= 'z' || 'A' <= c <= 'Z'
  }

  predicate IsPolishLetter(c: char) {
    c in "ąćęłńóśźżĄĆĘŁŃÓŚŹŻ"
  }

  /** The lower-case members of both letter classes. */
  predicate IsLowerLetter(c: char) {
    'a' <= c <= 'z' || c in "ąćęłńóśźż"
  }

  predicate IsLetter(alpha: Alphabet, c: char) {
    IsAsciiLetter(c) || (alpha == Polish && IsPolishLetter(c))
  }

  /** Python's `\w`: letters, digits and the underscore. Outside ASCII these are
      taken to be the alphanumerics of Latin-1 (including the ordinal indicators,
      the micro sign, the superscript digits and the vulgar fractions) and the
      letters of Latin Extended-A/B. */
  predicate IsWordChar(c: char) {
    || IsAsciiLetter(c)
    || ('0' <= c <= '9')
    || c == '_'
    || IsLatin1Alnum(c)
    || ('À' <= c <= 'ɏ' && c != '×' && c != '÷')
  }

  /** The alphanumerics of Latin-1 below `À`: the ordinal indicators, the micro
      sign, the superscript digits and the vulgar fractions. */
  predicate IsLatin1Alnum(c: char) {
    'ª' <= c <= '¾' && (c == 'ª' || c == 'µ' || c == 'º' || c == '²' || c == '³' || c == '¹' || '¼' <= c)
  }

  /** Python's whitespace, as used by `\s` and by `str.split()` without arguments. */
  predicate IsSpace(c: char) {
    || ('\t' <= c <= '\r')
    || ('\U{1C}' <= c <= ' ')
    || c == '\U{85}' || c == '\U{A0}' || c == '\U{1680}'
    || ('\U{2000}' <= c <= '\U{200A}')
    || c == '\U{2028}' || c == '\U{2029}' || c == '\U{202F}' || c == '\U{205F}' || c == '\U{3000}'
  }

  /** `str.lower` on one character: ASCII, Latin-1 and the Polish capitals. */
  function Lower(c: char): (l: char)
    ensures IsLetter(Polish, l) ==> IsLowerLetter(l)
    ensures !('A' <= l <= 'Z')
  {
    if 'A' <= c <= 'Z' then (c as int + 32) as char
    else if 'À' <= c <= 'Þ' && c != '×' then (c as int + 32) as char
    else match c
      case 'Ą' => 'ą'
      case 'Ć' => 'ć'
      case 'Ę' => 'ę'
      case 'Ł' => 'ł'
      case 'Ń' => 'ń'
      case 'Ś' => 'ś'
      case 'Ź' => 'ź'
      case 'Ż' => 'ż'
      case _ => c
  }

  /** What `str.lower` does to one character: a letter of the Polish class becomes
      a lower-case letter, a lower-case letter stays as it is, an ASCII or
      Latin-1 capital becomes its small letter (32 code points on), a Polish
      capital becomes the small letter right after it, and every character that is not a capital of
      ASCII, Latin-1 or the Polish alphabet is left unchanged. */
  lemma LowerFacts(c: char)
    ensures IsLetter(Polish, c) ==> IsLowerLetter(Lower(c))
    ensures IsLowerLetter(c) ==> Lower(c) == c
    ensures 'A' <= c <= 'Z' ==> Lower(c) as int == c as int + 32
    ensures 'À' <= c <= 'Þ' && c != '×' ==> Lower(c) as int == c as int + 32
    ensures c in "ĄĆĘŁŃŚŹŻ" ==> Lower(c) as int == c as int + 1
    ensures c == '×' ==> Lower(c) == c
    ensures !('A' <= c <= 'Z') && !('À' <= c <= 'Þ') && !(c in "ĄĆĘŁŃŚŹŻ") ==> Lower(c) == c
  {
  }

  function LowerString(s: string): (l: string)
    ensures |l| == |s|
    ensures forall k :: 0 <= k < |s| ==> l[k] == Lower(s[k])
  {
    if s == [] then [] else [Lower(s[0])] + LowerString(s[1..])
  }

  /** Every character of a lower-cased string is free of ASCII capitals, and a
      Polish-alphabet letter in it is a lower-case one. */
  lemma LowerStringChars(s: string)
    ensures forall c :: c in LowerString(s) ==>
      !('A' <= c <= 'Z') && (IsLetter(Polish, c) ==> IsLowerLetter(c))
  {
    forall c | c in LowerString(s) ensures !('A' <= c <= 'Z') && (IsLetter(Polish, c) ==> IsLowerLetter(c)) {
      var k :| 0 <= k < |s| && LowerString(s)[k] == c;
    }
  }

  lemma LetterIsWordChar(alpha: Alphabet, c: char)
    ensures IsLetter(alpha, c) ==> IsWordChar(c)
  {
  }

  // ---------------------------------------------------------------------------
  // re.findall(r'\b[letters]+\b', t)

  /** A span [p, q) of `t` that the extractor returns: letters only, with no word
      character immediately before or after it. */
  ghost predicate IsBoundedRun(alpha: Alphabet, t: string, p: int, q: int) {
    && 0 <= p < q <= |t|
    && (forall k :: p <= k < q ==> IsLetter(alpha, t[k]))
    && (p == 0 || !IsWordChar(t[p - 1]))
    && (q == |t| || !IsWordChar(t[q]))
  }

  /** End of the maximal letter run that starts at `p`. */
  function RunEnd(alpha: Alphabet, t: string, p: nat): (q: nat)
    requires p <= |t|
    ensures p <= q <= |t|
    ensures forall k :: p <= k < q ==> IsLetter(alpha, t[k])
    ensures q == |t| || !IsLetter(alpha, t[q])
    decreases |t| - p
  {
    if p == |t| || !IsLetter(alpha, t[p]) then p else RunEnd(alpha, t, p + 1)
  }

  /** The spans the regex engine matches when its scan reaches `i`: it tries every
      start, the greedy letter class takes the whole run, and a run whose ends touch
      a word character yields no match at any start inside it. */
  function RunsFrom(alpha: Alphabet, t: string, i: nat): seq<(nat, nat)>
    requires i <= |t|
    requires i == 0 || !IsLetter(alpha, t[i - 1])
    decreases |t| - i
  {
    if i == |t| then []
    else if !IsLetter(alpha, t[i]) then RunsFrom(alpha, t, i + 1)
    else
      var q := RunEnd(alpha, t, i);
      var here := if (i == 0 || !IsWordChar(t[i - 1])) && (q == |t| || !IsWordChar(t[q]))
                  then [(i, q)] else [];
      here + (if q == |t| then [] else RunsFrom(alpha, t, q + 1))
  }

  /** Every span found from `i` on is a bounded run starting at or after `i`. */
  lemma {:induction false} RunsFromSound(alpha: Alphabet, t: string, i: nat)
    requires i <= |t|
    requires i == 0 || !IsLetter(alpha, t[i - 1])
    ensures forall s :: s in RunsFrom(alpha, t, i) ==> i <= s.0 && IsBoundedRun(alpha, t, s.0, s.1)
    decreases |t| - i, 1
  {
    if i == |t| {
    } else if !IsLetter(alpha, t[i]) {
      RunsFromSound(alpha, t, i + 1);
      RunsFromSkip(alpha, t, i);
    } else {
      RunsFromLetter(alpha, t, i);
    }
  }

  /** The scan passes over a character outside the class. */
  lemma {:induction false} RunsFromSkip(alpha: Alphabet, t: string, i: nat)
    requires i < |t| && !IsLetter(alpha, t[i])
    requires i == 0 || !IsLetter(alpha, t[i - 1])
    ensures RunsFrom(alpha, t, i) == RunsFrom(alpha, t, i + 1)
  {
  }

  /** The step of `RunsFromSound` at a letter: the run starting here, if kept, is
      bounded, and the rest comes from after the run. */
  lemma {:induction false} RunsFromLetter(alpha: Alphabet, t: string, i: nat)
    requires i < |t| && IsLetter(alpha, t[i])
    requires i == 0 || !IsLetter(alpha, t[i - 1])
    ensures forall s :: s in RunsFrom(alpha, t, i) ==> i <= s.0 && IsBoundedRun(alpha, t, s.0, s.1)
    decreases |t| - i, 0
  {
    var q := RunEnd(alpha, t, i);
    if q < |t| {
      RunsFromSound(alpha, t, q + 1);
    }
    var rest: seq<(nat, nat)> := if q == |t| then [] else RunsFrom(alpha, t, q + 1);
    if (i == 0 || !IsWordChar(t[i - 1])) && (q == |t| || !IsWordChar(t[q])) {
      assert IsBoundedRun(alpha, t, i, q);
      assert RunsFrom(alpha, t, i) == [(i, q)] + rest;
    } else {
      assert RunsFrom(alpha, t, i) == rest;
    }
  }

  /** A bounded run starting at `p` ends where the letter run from `p` ends. */
  lemma BoundedRunEnd(alpha: Alphabet, t: string, p: int, q': int)
    requires IsBoundedRun(alpha, t, p, q')
    ensures RunEnd(alpha, t, p) == q'
  {
    var q := RunEnd(alpha, t, p);
    if q' < q {
      LetterIsWordChar(alpha, t[q']);
    }
  }

  /** A bounded run cannot start inside the letter run that begins at `i`. */
  lemma BoundedRunAfter(alpha: Alphabet, t: string, i: nat, p: int, q': int)
    requires i < p && i < |t| && IsLetter(alpha, t[i])
    requires IsBoundedRun(alpha, t, p, q')
    ensures RunEnd(alpha, t, i) < p
  {
    var q := RunEnd(alpha, t, i);
    if p <= q {
      LetterIsWordChar(alpha, t[p - 1]);
    }
  }

  /** Every bounded run starting at or after `i` is found. */
  lemma {:induction false} RunsFromComplete(alpha: Alphabet, t: string, i: nat, p: int, q': int)
    requires i <= |t|
    requires i == 0 || !IsLetter(alpha, t[i - 1])
    requires i <= p && IsBoundedRun(alpha, t, p, q')
    ensures (p, q') in RunsFrom(alpha, t, i)
    decreases |t| - i
  {
    if !IsLetter(alpha, t[i]) {
      RunsFromComplete(alpha, t, i + 1, p, q');
    } else if p == i {
      BoundedRunEnd(alpha, t, p, q');
    } else {
      BoundedRunAfter(alpha, t, i, p, q');
      RunsFromComplete(alpha, t, RunEnd(alpha, t, i) + 1, p, q');
    }
  }

  /** The spans come in text order and do not overlap. */
  lemma {:induction false} RunsFromOrdered(alpha: Alphabet, t: string, i: nat)
    requires i <= |t|
    requires i == 0 || !IsLetter(alpha, t[i - 1])
    ensures forall j, k :: 0 <= j < k < |RunsFrom(alpha, t, i)| ==>
              RunsFrom(alpha, t, i)[j].1 < RunsFrom(alpha, t, i)[k].0
    decreases |t| - i, 1
  {
    if i == |t| {
    } else if !IsLetter(alpha, t[i]) {
      RunsFromOrdered(alpha, t, i + 1);
      RunsFromSkip(alpha, t, i);
    } else {
      RunsFromOrderedLetter(alpha, t, i);
    }
  }

  /** The step of `RunsFromOrdered` at a letter: the spans found after the run
      all start past its end. */
  lemma {:induction false} RunsFromOrderedLetter(alpha: Alphabet, t: string, i: nat)
    requires i < |t| && IsLetter(alpha, t[i])
    requires i == 0 || !IsLetter(alpha, t[i - 1])
    ensures forall j, k :: 0 <= j < k < |RunsFrom(alpha, t, i)| ==>
              RunsFrom(alpha, t, i)[j].1 < RunsFrom(alpha, t, i)[k].0
    decreases |t| - i, 0
  {
    var q := RunEnd(alpha, t, i);
    var rest: seq<(nat, nat)> := if q == |t| then [] else RunsFrom(alpha, t, q + 1);
    if q < |t| {
      RunsFromOrdered(alpha, t, q + 1);
      RunsFromAfter(alpha, t, q + 1);
    }
    RunsFromAtLetter(alpha, t, i);
    if RunsFrom(alpha, t, i) != rest {
      SpansOrderedCons((i, q), rest);
    }
  }

  /** Every span found from `i` on starts at or after `i`. */
  lemma RunsFromAfter(alpha: Alphabet, t: string, i: nat)
    requires i <= |t|
    requires i == 0 || !IsLetter(alpha, t[i - 1])
    ensures forall k :: 0 <= k < |RunsFrom(alpha, t, i)| ==> i <= RunsFrom(alpha, t, i)[k].0
  {
    RunsFromSound(alpha, t, i);
    forall k | 0 <= k < |RunsFrom(alpha, t, i)| ensures i <= RunsFrom(alpha, t, i)[k].0 {
      assert RunsFrom(alpha, t, i)[k] in RunsFrom(alpha, t, i);
    }
  }

  /** A span ending before every span of an ordered list can go in front of it. */
  lemma SpansOrderedCons(x: (nat, nat), rest: seq<(nat, nat)>)
    requires forall j, k :: 0 <= j < k < |rest| ==> rest[j].1 < rest[k].0
    requires forall k :: 0 <= k < |rest| ==> x.1 < rest[k].0
    ensures forall j, k :: 0 <= j < k < |[x] + rest| ==> ([x] + rest)[j].1 < ([x] + rest)[k].0
  {
    forall j, k | 0 <= j < k < |[x] + rest| ensures ([x] + rest)[j].1 < ([x] + rest)[k].0 {
      assert ([x] + rest)[k] == rest[k - 1];
      if j > 0 {
        assert ([x] + rest)[j] == rest[j - 1];
      }
    }
  }

  /** At a letter the scan reports the run there or not, then goes on after it. */
  lemma {:induction false} RunsFromAtLetter(alpha: Alphabet, t: string, i: nat)
    requires i < |t| && IsLetter(alpha, t[i])
    requires i == 0 || !IsLetter(alpha, t[i - 1])
    ensures var q := RunEnd(alpha, t, i);
      var rest: seq<(nat, nat)> := if q == |t| then [] else RunsFrom(alpha, t, q + 1);
      RunsFrom(alpha, t, i) == rest || RunsFrom(alpha, t, i) == [(i, q)] + rest
  {
  }

  /** The spans the extractor finds are exactly the bounded runs, in text order. */
  lemma RunsCharacterised(alpha: Alphabet, t: string)
    ensures forall p, q :: (p, q) in RunsFrom(alpha, t, 0) <==> IsBoundedRun(alpha, t, p, q)
    ensures forall j, k :: 0 <= j < k < |RunsFrom(alpha, t, 0)| ==>
              RunsFrom(alpha, t, 0)[j].1 < RunsFrom(alpha, t, 0)[k].0
  {
    RunsFromSound(alpha, t, 0);
    RunsFromOrdered(alpha, t, 0);
    forall p, q | IsBoundedRun(alpha, t, p, q) ensures (p, q) in RunsFrom(alpha, t, 0) {
      RunsFromComplete(alpha, t, 0, p, q);
    }
  }

  /** The substrings named by a list of spans. */
  function Slices(t: string, spans: seq<(nat, nat)>): (r: seq<string>)
    requires forall k :: 0 <= k < |spans| ==> spans[k].0 <= spans[k].1 <= |t|
    ensures |r| == |spans|
    ensures forall k :: 0 <= k < |r| ==> r[k] == t[spans[k].0..spans[k].1]
  {
    if spans == [] then [] else [t[spans[0].0..spans[0].1]] + Slices(t, spans[1..])
  }

  /** `re.findall(r'\b[letters]+\b', t)`. */
  function FindRuns(alpha: Alphabet, t: string): (words: seq<string>)
  {
    RunsFromSound(alpha, t, 0);
    Slices(t, RunsFrom(alpha, t, 0))
  }

  /** Each extracted word is a non-empty run of letters taken from a bounded span
      of the text, in text order; every bounded span yields one. */
  lemma FindRunsSound(alpha: Alphabet, t: string)
    ensures |FindRuns(alpha, t)| == |RunsFrom(alpha, t, 0)|
    ensures forall k :: 0 <= k < |FindRuns(alpha, t)| ==>
              && IsBoundedRun(alpha, t, RunsFrom(alpha, t, 0)[k].0, RunsFrom(alpha, t, 0)[k].1)
              && FindRuns(alpha, t)[k] == t[RunsFrom(alpha, t, 0)[k].0..RunsFrom(alpha, t, 0)[k].1]
    ensures forall p, q :: IsBoundedRun(alpha, t, p, q) ==> (p, q) in RunsFrom(alpha, t, 0)
    ensures forall k :: 0 <= k < |FindRuns(alpha, t)| ==> IsRun(alpha, FindRuns(alpha, t)[k])
  {
    RunsCharacterised(alpha, t);
    var spans := RunsFrom(alpha, t, 0);
    forall k | 0 <= k < |spans| ensures IsRun(alpha, FindRuns(alpha, t)[k]) {
      assert spans[k] in spans;
      assert IsBoundedRun(alpha, t, spans[k].0, spans[k].1);
    }
  }

  /** Each extracted word is a run of letters drawn from the text. */
  lemma FindRunsFromText(alpha: Alphabet, t: string)
    ensures forall w :: w in FindRuns(alpha, t) ==>
      IsRun(alpha, w) && forall j :: 0 <= j < |w| ==> w[j] in t
  {
    var runs := FindRuns(alpha, t);
    var spans := RunsFrom(alpha, t, 0);
    FindRunsSound(alpha, t);
    forall w | w in runs ensures IsRun(alpha, w) && forall j :: 0 <= j < |w| ==> w[j] in t {
      var k :| 0 <= k < |runs| && runs[k] == w;
      assert w == t[spans[k].0..spans[k].1];
      forall j | 0 <= j < |w| ensures w[j] in t {
        assert w[j] == t[spans[k].0 + j];
      }
    }
  }

  /** A non-empty word made of letters only. */
  predicate IsRun(alpha: Alphabet, w: string) {
    |w| > 0 && forall k :: 0 <= k < |w| ==> IsLetter(alpha, w[k])
  }

  /** A maximal letter run that touches a word character on either side (a digit,
      `_`, or a letter outside the class) yields no word at all: no reported span
      overlaps it. */
  lemma TouchingRunIsDropped(alpha: Alphabet, t: string, p: nat, q: nat)
    requires p < q <= |t|
    requires forall k :: p <= k < q ==> IsLetter(alpha, t[k])
    requires p == 0 || !IsLetter(alpha, t[p - 1])
    requires q == |t| || !IsLetter(alpha, t[q])
    requires (0 < p && IsWordChar(t[p - 1])) || (q < |t| && IsWordChar(t[q]))
    ensures forall s :: s in RunsFrom(alpha, t, 0) ==> s.1 <= p || q <= s.0
  {
    RunsFromSound(alpha, t, 0);
    forall s | s in RunsFrom(alpha, t, 0) ensures s.1 <= p || q <= s.0 {
      assert IsBoundedRun(alpha, t, s.0, s.1);
      if s.0 < q && p < s.1 {
        if p < s.0 {
          LetterIsWordChar(alpha, t[s.0 - 1]);
        } else if s.1 < q {
          LetterIsWordChar(alpha, t[s.1]);
        }
      }
    }
  }

  // ---------------------------------------------------------------------------
  // str.split() and ' '.join

  /** Length of the leading run of non-whitespace characters. */
  function NonSpacePrefix(s: string): (n: nat)
    ensures n <= |s|
    ensures forall k :: 0 <= k < n ==> !IsSpace(s[k])
    ensures n == |s| || IsSpace(s[n])
  {
    if s == [] || IsSpace(s[0]) then 0 else 1 + NonSpacePrefix(s[1..])
  }

  /** `s.split()`: the maximal runs of non-whitespace characters, in order. */
  function SplitWs(s: string): (ws: seq<string>)
    decreases |s|
  {
    if s == [] then []
    else if IsSpace(s[0]) then SplitWs(s[1..])
    else
      var n := NonSpacePrefix(s);
      [s[..n]] + SplitWs(s[n..])
  }

  /** A piece of `split()` output: non-empty, without whitespace. */
  predicate IsField(w: string) {
    |w| > 0 && forall k :: 0 <= k < |w| ==> !IsSpace(w[k])
  }

  lemma {:induction false} SplitWsFields(s: string)
    ensures forall k :: 0 <= k < |SplitWs(s)| ==> IsField(SplitWs(s)[k])
    decreases |s|
  {
    if s == [] {
    } else if IsSpace(s[0]) {
      SplitWsFields(s[1..]);
    } else {
      SplitWsFields(s[NonSpacePrefix(s)..]);
    }
  }

  /** The whitespace around and between the fields of `s.split()`: the stretch
      before the first field, the runs between fields, and the stretch after the
      last one (the outer two may be empty). */
  function Gaps(s: string): (g: seq<string>)
    ensures |g| >= 1
    ensures forall k, j :: 0 <= k < |g| && 0 <= j < |g[k]| ==> IsSpace(g[k][j])
    ensures s != [] && IsSpace(s[0]) ==> |g[0]| > 0
    decreases |s|
  {
    if s == [] then [""]
    else if IsSpace(s[0]) then
      var g := Gaps(s[1..]);
      [[s[0]] + g[0]] + g[1..]
    else [""] + Gaps(s[NonSpacePrefix(s)..])
  }

  /** `gaps[0] + ws[0] + gaps[1] + ws[1] + ... + gaps[|ws|]`. */
  function Weave(gaps: seq<string>, ws: seq<string>): string
    requires |gaps| == |ws| + 1
  {
    if ws == [] then gaps[0] else gaps[0] + ws[0] + Weave(gaps[1..], ws[1..])
  }

  lemma {:induction false} WeaveCons(c: char, g: seq<string>, ws: seq<string>)
    requires |g| == |ws| + 1
    ensures Weave([[c] + g[0]] + g[1..], ws) == [c] + Weave(g, ws)
  {
    var g' := [[c] + g[0]] + g[1..];
    assert g'[1..] == g[1..];
  }

  lemma {:induction false} GapsCount(s: string)
    ensures |Gaps(s)| == |SplitWs(s)| + 1
    decreases |s|
  {
    if s == [] {
    } else if IsSpace(s[0]) {
      GapsCount(s[1..]);
    } else {
      GapsCount(s[NonSpacePrefix(s)..]);
    }
  }

  /** Between two fields of `s.split()` there is always some whitespace. */
  lemma {:induction false} GapsInner(s: string)
    ensures forall k :: 0 < k < |Gaps(s)| - 1 ==> |Gaps(s)[k]| > 0
    decreases |s|
  {
    if s == [] {
    } else if IsSpace(s[0]) {
      GapsInner(s[1..]);
      var g := Gaps(s[1..]);
      assert forall k :: 0 < k < |g| ==> Gaps(s)[k] == g[k];
    } else {
      var rest := s[NonSpacePrefix(s)..];
      GapsInner(rest);
      var g := Gaps(rest);
      assert forall k :: 0 < k < |g| + 1 ==> Gaps(s)[k] == g[k - 1];
    }
  }

  /** `s.split()` loses only whitespace: `s` is its fields with the gaps put
      back, the gaps between two fields are non-empty runs of whitespace, and
      the leading and trailing whitespace is what the outer gaps hold. */
  lemma {:induction false} SplitWsReassemble(s: string)
    ensures |Gaps(s)| == |SplitWs(s)| + 1
    ensures forall k :: 0 < k < |Gaps(s)| - 1 ==> |Gaps(s)[k]| > 0
    ensures Weave(Gaps(s), SplitWs(s)) == s
    decreases |s|
  {
    GapsCount(s);
    GapsInner(s);
    if s == [] {
    } else if IsSpace(s[0]) {
      SplitWsReassemble(s[1..]);
      WeaveCons(s[0], Gaps(s[1..]), SplitWs(s[1..]));
      assert [s[0]] + s[1..] == s;
    } else {
      var n := NonSpacePrefix(s);
      var rest := s[n..];
      SplitWsReassemble(rest);
      WeaveField(s[..n], Gaps(rest), SplitWs(rest));
      assert s[..n] + rest == s;
    }
  }

  lemma {:induction false} WeaveField(w: string, g: seq<string>, ws: seq<string>)
    requires |g| == |ws| + 1
    ensures Weave([""] + g, [w] + ws) == w + Weave(g, ws)
  {
    assert ([""] + g)[1..] == g;
    assert ([w] + ws)[1..] == ws;
  }

  /** `' '.join(ws)`. */
  function Join(ws: seq<string>): string {
    if ws == [] then ""
    else if |ws| == 1 then ws[0]
    else ws[0] + " " + Join(ws[1..])
  }

  lemma {:induction false} NonSpacePrefixOfField(w: string, rest: string)
    requires IsField(w)
    requires rest == [] || IsSpace(rest[0])
    ensures NonSpacePrefix(w + rest) == |w|
    decreases |w|
  {
    assert (w + rest)[0] == w[0];
    assert !IsSpace(w[0]);
    if |w| > 1 {
      assert (w + rest)[1..] == w[1..] + rest;
      assert IsField(w[1..]) by {
        assert forall k :: 0 <= k < |w[1..]| ==> w[1..][k] == w[k + 1];
      }
      NonSpacePrefixOfField(w[1..], rest);
    } else {
      assert (w + rest)[1..] == rest;
    }
  }

  /** Joining fields with single spaces and splitting again gives the fields back. */
  lemma {:induction false} SplitJoin(ws: seq<string>)
    requires forall k :: 0 <= k < |ws| ==> IsField(ws[k])
    ensures SplitWs(Join(ws)) == ws
  {
    if ws == [] {
    } else if |ws| == 1 {
      NonSpacePrefixOfField(ws[0], []);
      assert ws[0][|ws[0]|..] == [];
      assert ws[0] + [] == ws[0];
    } else {
      var w, rest := ws[0], Join(ws[1..]);
      var s := w + " " + rest;
      assert s == w + (" " + rest);
      NonSpacePrefixOfField(w, " " + rest);
      assert s[..|w|] == w;
      assert s[|w|..] == " " + rest;
      assert (" " + rest)[1..] == rest;
      SplitJoin(ws[1..]);
    }
  }

  // ---------------------------------------------------------------------------
  // Python slicing and string order

  /** `s[:n]` for any integer `n`; a negative `n` drops that many items from the end. */
  function PySlice<T>(s: seq<T>, n: int): (r: seq<T>)
    ensures |r| == if n >= 0 then (if n < |s| then n else |s|)
                   else (if |s| + n > 0 then |s| + n else 0)
    ensures r <= s
  {
    if n >= 0 then (if n < |s| then s[..n] else s)
    else if |s| + n > 0 then s[..|s| + n] else []
  }

  /** Python's `<=` on `str`: lexicographic by code point. */
  predicate LexLe(a: string, b: string) {
    if a == [] then true
    else if b == [] then false
    else if a[0] != b[0] then a[0] < b[0]
    else LexLe(a[1..], b[1..])
  }

  lemma {:induction false} LexLeTotal(a: string, b: string)
    ensures LexLe(a, b) || LexLe(b, a)
  {
    if a != [] && b != [] && a[0] == b[0] {
      LexLeTotal(a[1..], b[1..]);
    }
  }

  lemma {:induction false} LexLeAntisymmetric(a: string, b: string)
    requires LexLe(a, b) && LexLe(b, a)
    ensures a == b
  {
    if a != [] && b != [] {
      LexLeAntisymmetric(a[1..], b[1..]);
      assert a == [a[0]] + a[1..];
      assert b == [b[0]] + b[1..];
    }
  }
}
