/**
 * The ranking half of `create_wordfreq`: the corpus reader, the `wordfreq`
 * table with its three kinds of writes, and the order of the `result` table.
 */
module Ranking {
  import opened Wrappers
  import opened Text
  import opened Loader
  import opened Lookup

  /** `wordfreq(char PRIMARY KEY, freq)`. */
  type Freqs = map<string, real>

  /** The exceptions that stop `_read_from_file`. */
  datatype CorpusError = IndexError | ValueError

  /**
   * One corpus line: its first token and the integer of its fourth when the
   * first token is one character, nothing when it is longer or shorter (the
   * header), and the exception when a token is missing or not an integer.
   */
  function CorpusLine(l: string): (r: Result<Option<(string, int)>, CorpusError>)
    ensures r.Success? && r.value.Some? ==> |r.value.value.0| == 1 && !IsSpace(r.value.value.0[0])
    ensures r == Failure(IndexError) ==> AllWhite(Unicode, l) || |Words(l)| < 4
    ensures AllWhite(Unicode, l) ==> r == Failure(IndexError)
    ensures Words(l) != [] ==> (r == Success(None) <==> |Words(l)[0]| != 1)
    ensures var t := Words(l); |t| >= 4 && |t[0]| == 1 ==> (r == Failure(ValueError) <==> ParseInt(t[3]).None?)
  {
    var toks := Words(l);
    if toks == [] then Failure(IndexError)
    else if |toks[0]| != 1 then Success(None)
    else if |toks| < 4 then Failure(IndexError)
    else match ParseInt(toks[3])
      case None => Failure(ValueError)
      case Some(n) => Success(Some((toks[0], n)))
  }

  /**
   * A record line `c a b n …`, its tokens laid out with any whitespace (tabs,
   * the trailing newline), yields its one-character first token and the count `n`.
   */
  lemma CorpusRecord(c: char, a: string, b: string, n: int, more: seq<string>, gaps: seq<string>)
    requires !IsSpace(c)
    requires Tokens([a, b] + more)
    requires |gaps| == |more| + 5 && Gaps(gaps)
    ensures CorpusLine(Spread([[c], a, b, ShowInt(n)] + more, gaps)) == Success(Some(([c], n)))
  {
    var ws := [[c], a, b, ShowInt(n)] + more;
    ShowIntToken(n);
    RecordTokens([c], a, b, ShowInt(n), more);
    WordsOfSpread(ws, gaps);
    ParseShowInt(n);
    CorpusOfTokens(Spread(ws, gaps), ws, n);
  }

  /** The tokens of a record are tokens. */
  lemma RecordTokens(c: string, a: string, b: string, s: string, more: seq<string>)
    requires Tokens([c]) && Tokens([s]) && Tokens([a, b] + more)
    ensures Tokens([c, a, b, s] + more)
  {
    var ws := [c, a, b, s] + more;
    forall i | 0 <= i < |ws| ensures ws[i] != [] && NoSpace(ws[i]) {
      if i >= 4 {
        assert ws[i] == ([a, b] + more)[i - 2];
      } else if i == 0 {
        assert ws[i] == [c][0];
      } else if i == 3 {
        assert ws[i] == [s][0];
      } else {
        assert ws[i] == ([a, b] + more)[i - 1];
      }
    }
  }

  /** A line whose tokens are a one-character char, two more tokens and an integer yields the char and the integer. */
  lemma CorpusOfTokens(l: string, t: seq<string>, n: int)
    requires Words(l) == t && |t| >= 4 && |t[0]| == 1 && ParseInt(t[3]) == Some(n)
    ensures CorpusLine(l) == Success(Some((t[0], n)))
  {
  }

  /** A line whose first token is not one character (the header) yields nothing. */
  lemma CorpusHeader(ws: seq<string>, gaps: seq<string>)
    requires Tokens(ws) && ws != [] && |ws[0]| != 1
    requires |gaps| == |ws| + 1 && Gaps(gaps)
    ensures CorpusLine(Spread(ws, gaps)) == Success(None)
  {
    WordsOfSpread(ws, gaps);
  }

  /** A record line with fewer than four tokens stops the reader. */
  lemma CorpusShortRecord(ws: seq<string>, gaps: seq<string>)
    requires Tokens(ws) && ws != [] && |ws[0]| == 1 && |ws| < 4
    requires |gaps| == |ws| + 1 && Gaps(gaps)
    ensures CorpusLine(Spread(ws, gaps)) == Failure(IndexError)
  {
    WordsOfSpread(ws, gaps);
  }

  /** Line `i` of the corpus is read without an exception. */
  predicate LineReads(lines: seq<string>, i: int) {
    0 <= i < |lines| && CorpusLine(lines[i]).Success?
  }

  /** Line `i` of the corpus yields the pair `p`. */
  predicate LineYields(lines: seq<string>, i: int, p: (string, int)) {
    0 <= i < |lines| && CorpusLine(lines[i]) == Success(Some(p))
  }

  /** The pairs one corpus line contributes: its pair, or none. */
  function LinePairs(l: string): seq<(string, int)> {
    match CorpusLine(l)
    case Success(Some(p)) => [p]
    case _ => []
  }

  /** The pairs of every line, line after line. */
  function InLineOrder(lines: seq<string>): seq<(string, int)> {
    Concat(seq(|lines|, i requires 0 <= i < |lines| => LinePairs(lines[i])))
  }

  /** The pairs in line order: those of the first line, then those of the others. */
  lemma InLineOrderCons(lines: seq<string>)
    requires lines != []
    ensures InLineOrder(lines) == LinePairs(lines[0]) + InLineOrder(lines[1..])
  {
    var ss := seq(|lines|, i requires 0 <= i < |lines| => LinePairs(lines[i]));
    assert ss[1..] == seq(|lines[1..]|, i requires 0 <= i < |lines[1..]| => LinePairs(lines[1..][i]));
  }

  /**
   * `_read_from_file`: the pairs of the corpus, in line order, or the exception
   * of the first line that raises one.
   */
  function ReadFromFile(lines: seq<string>): (r: Result<seq<(string, int)>, CorpusError>)
    ensures r.Success? <==> forall i :: 0 <= i < |lines| ==> LineReads(lines, i)
    ensures r.Failure? ==> exists i :: 0 <= i < |lines| && CorpusLine(lines[i]) == Failure(r.error) &&
                                       forall j :: 0 <= j < i ==> LineReads(lines, j)
    ensures r.Success? ==> forall p :: p in r.value <==> exists i :: LineYields(lines, i, p)
  {
    if lines == [] then Success([])
    else
      ReadSplit(lines);
      match CorpusLine(lines[0])
      case Failure(e) => Failure(e)
      case Success(first) =>
        match ReadFromFile(lines[1..])
        case Failure(e) =>
          ghost var i :| 0 <= i < |lines[1..]| && CorpusLine(lines[1..][i]) == Failure(e) &&
                         forall j :: 0 <= j < i ==> LineReads(lines[1..], j);
          FailureShifts(lines, i, e);
          Failure(e)
        case Success(rest) =>
          var pairs := if first.Some? then [first.value] + rest else rest;
          ReadPairsShift(lines, first, rest, pairs);
          Success(pairs)
  }

  /** The first line's pair, if any, ahead of the pairs of the other lines gives the pairs of all lines. */
  lemma ReadPairsShift(lines: seq<string>, first: Option<(string, int)>, rest: seq<(string, int)>, pairs: seq<(string, int)>)
    requires lines != [] && CorpusLine(lines[0]) == Success(first)
    requires forall p :: p in rest <==> exists i :: LineYields(lines[1..], i, p)
    requires pairs == if first.Some? then [first.value] + rest else rest
    ensures forall p :: p in pairs <==> exists i :: LineYields(lines, i, p)
  {
    ReadSplit(lines);
  }

  /** A line that fails after the first line fails at the next index of the whole corpus. */
  lemma FailureShifts(lines: seq<string>, i: int, e: CorpusError)
    requires |lines| > 0 && LineReads(lines, 0)
    requires 0 <= i < |lines| - 1 && CorpusLine(lines[1..][i]) == Failure(e)
    requires forall j :: 0 <= j < i ==> LineReads(lines[1..], j)
    ensures CorpusLine(lines[i + 1]) == Failure(e)
    ensures forall j :: 0 <= j < i + 1 ==> LineReads(lines, j)
  {
    forall j | 0 <= j < i + 1 ensures LineReads(lines, j) {
      if j > 0 {
        assert LineReads(lines[1..], j - 1);
      }
    }
  }

  /** What the reader returns on success is every line's pair, in line order. */
  lemma {:induction false} ReadInLineOrder(lines: seq<string>)
    requires ReadFromFile(lines).Success?
    ensures ReadFromFile(lines).value == InLineOrder(lines)
  {
    if lines != [] {
      InLineOrderCons(lines);
      ReadInLineOrder(lines[1..]);
    }
  }

  /** Reading the corpus line by line: the first line, then the others. */
  lemma ReadSplit(lines: seq<string>)
    requires lines != []
    ensures (forall i :: 0 <= i < |lines| ==> LineReads(lines, i)) <==>
            LineReads(lines, 0) && forall i :: 0 <= i < |lines[1..]| ==> LineReads(lines[1..], i)
    ensures forall p :: (exists i :: LineYields(lines, i, p)) <==>
                        CorpusLine(lines[0]) == Success(Some(p)) || exists i :: LineYields(lines[1..], i, p)
  {
    forall i | 0 <= i < |lines[1..]| ensures LineReads(lines[1..], i) == LineReads(lines, i + 1) {
    }
    if forall i :: 0 <= i < |lines| ==> LineReads(lines, i) {
      forall i | 0 <= i < |lines[1..]| ensures LineReads(lines[1..], i) {
        assert LineReads(lines, i + 1);
      }
    }
    if LineReads(lines, 0) && forall i :: 0 <= i < |lines[1..]| ==> LineReads(lines[1..], i) {
      forall i | 0 <= i < |lines| ensures LineReads(lines, i) {
        if i > 0 {
          assert LineReads(lines[1..], i - 1);
        }
      }
    }
    forall p | exists i :: LineYields(lines, i, p)
      ensures CorpusLine(lines[0]) == Success(Some(p)) || exists i :: LineYields(lines[1..], i, p)
    {
      var i :| LineYields(lines, i, p);
      if i > 0 {
        assert LineYields(lines[1..], i - 1, p);
      }
    }
    forall p, i | LineYields(lines[1..], i, p) ensures LineYields(lines, i + 1, p) {
    }
    forall p | CorpusLine(lines[0]) == Success(Some(p)) ensures LineYields(lines, 0, p) {
    }
  }

  /** No earlier pair of `ps` has the char of pair `i`. */
  predicate FirstOf(ps: seq<(string, int)>, i: int)
    requires 0 <= i < |ps|
  {
    forall j :: 0 <= j < i ==> ps[j].0 != ps[i].0
  }

  /** The chars of the pairs. */
  function CharsOf(ps: seq<(string, int)>): set<string> {
    set i | 0 <= i < |ps| :: ps[i].0
  }

  /**
   * The corpus pairs inserted with `INSERT OR IGNORE` on the key `char`: the
   * table gains the chars of the pairs, and a char already there keeps its count.
   */
  function FirstWins(wf: Freqs, ps: seq<(string, int)>): (r: Freqs)
    ensures forall c :: c in r <==> c in wf || c in CharsOf(ps)
    ensures forall c :: c in wf ==> r[c] == wf[c]
    decreases |ps|
  {
    if ps == [] then wf
    else
      var m := FirstWins(wf, ps[..|ps| - 1]);
      var last := ps[|ps| - 1];
      assert forall c :: c in CharsOf(ps) <==> c in CharsOf(ps[..|ps| - 1]) || c == last.0 by {
        forall c | c in CharsOf(ps) ensures c in CharsOf(ps[..|ps| - 1]) || c == last.0 {
          var i :| 0 <= i < |ps| && ps[i].0 == c;
          if i < |ps| - 1 {
            assert ps[..|ps| - 1][i] == ps[i];
          }
        }
        forall c | c in CharsOf(ps[..|ps| - 1]) ensures c in CharsOf(ps) {
          var i :| 0 <= i < |ps| - 1 && ps[..|ps| - 1][i].0 == c;
          assert ps[i].0 == c;
        }
        assert last.0 == ps[|ps| - 1].0;
      }
      if last.0 in m then m else m[last.0 := last.1 as real]
  }

  /** A char new to the table takes the count of its first pair. */
  lemma {:induction false} FirstWinsAt(wf: Freqs, ps: seq<(string, int)>, i: nat)
    requires i < |ps| && ps[i].0 !in wf && FirstOf(ps, i)
    ensures ps[i].0 in FirstWins(wf, ps)
    ensures FirstWins(wf, ps)[ps[i].0] == ps[i].1 as real
    decreases |ps|
  {
    var front := ps[..|ps| - 1];
    if i < |ps| - 1 {
      assert front[i] == ps[i];
      assert FirstOf(front, i) by {
        forall j | 0 <= j < i ensures front[j].0 != front[i].0 {
          assert front[j] == ps[j];
        }
      }
      FirstWinsAt(wf, front, i);
    }
  }

  /** `SELECT char FROM lookup WHERE char<?`: the chars of the table that sort below `threshold`. */
  function Below(t: Table, threshold: string): (r: set<string>)
    ensures forall e :: e in t ==> (e.1 in r <==> LexLess(e.1, threshold))
    ensures forall c :: c in r ==> exists e :: e in t && e.1 == c
  {
    set e | e in t && LexLess(e.1, threshold) :: e.1
  }

  /**
   * creator.py:154: every char of the table below the threshold, not yet in
   * `wordfreq`, gets the weight -1; no existing weight is overwritten.
   */
  function WithSentinels(wf: Freqs, t: Table, threshold: string): (r: Freqs)
    ensures r.Keys == wf.Keys + Below(t, threshold)
    ensures forall c :: c in wf ==> r[c] == wf[c]
    ensures forall c :: c in r && c !in wf ==> r[c] == -1.0
  {
    map c | c in wf.Keys + Below(t, threshold) :: if c in wf then wf[c] else -1.0
  }

  /**
   * The threshold as written: a Python 2 byte string literal, so the six
   * characters backslash, `u`, `3`, `0`, `0`, `0`, not the ideographic space.
   */
  const CjkThreshold: string := "\\u3000"

  /** A one-character char sorts below that threshold exactly when it is at most a backslash. */
  lemma BelowThreshold(c: char)
    ensures LexLess([c], CjkThreshold) <==> c <= '\\'
  {
    assert CjkThreshold[0] == '\\';
    assert [c][1..] == [];
    assert CjkThreshold[1..] != [];
  }

  /** `delta = 1.0 / (1.0 + len(symchars))`. */
  function Delta(n: nat): (d: real)
    ensures 0.0 < d <= 1.0
  {
    1.0 / (1.0 + n as real)
  }

  /** The weight of the `i`-th of `n` symbols, `1.0 - i*(delta+1)`: the first symbol gets 1. */
  function SymbolWeight(i: nat, n: nat): (w: real)
    ensures i == 0 ==> w == 1.0
  {
    1.0 - (i as real) * (Delta(n) + 1.0)
  }

  /** Every symbol after the first gets a weight at most `-delta`, below every corpus count. */
  lemma {:induction false} SymbolWeightNegative(i: nat, n: nat)
    requires i > 0
    ensures SymbolWeight(i, n) <= -Delta(n) < 0.0
    decreases i
  {
    SymbolWeightStep(i - 1, n);
    if i > 1 {
      SymbolWeightNegative(i - 1, n);
    }
  }

  /** Weights fall strictly along the symbol list. */
  lemma {:induction false} SymbolWeightsDecrease(i: nat, j: nat, n: nat)
    requires i < j
    ensures SymbolWeight(j, n) < SymbolWeight(i, n)
    decreases j
  {
    SymbolWeightStep(j - 1, n);
    if i < j - 1 {
      SymbolWeightsDecrease(i, j - 1, n);
    }
  }

  /** Each step down the list costs `delta + 1`. */
  lemma SymbolWeightStep(i: nat, n: nat)
    ensures SymbolWeight(i + 1, n) == SymbolWeight(i, n) - (Delta(n) + 1.0)
  {
    var c := Delta(n) + 1.0;
    assert ((i + 1) as real) * c == (i as real) * c + c;
  }

  /** No later symbol among the first `k` repeats symbol `i`. */
  predicate LastOf(syms: seq<string>, i: int, k: int)
    requires 0 <= i < k <= |syms|
  {
    forall j :: i < j < k ==> syms[j] != syms[i]
  }

  /**
   * The first `k` symbols written with `INSERT OR REPLACE`: the table gains
   * exactly those symbols, and every other char keeps its weight.
   */
  function Weighted(wf: Freqs, syms: seq<string>, k: nat): (r: Freqs)
    requires k <= |syms|
    ensures forall c :: c in r <==> c in wf || c in syms[..k]
    ensures forall c :: c in wf && c !in syms[..k] ==> r[c] == wf[c]
  {
    if k == 0 then wf
    else
      assert syms[..k] == syms[..k - 1] + [syms[k - 1]];
      Weighted(wf, syms, k - 1)[syms[k - 1] := SymbolWeight(k - 1, |syms|)]
  }

  /** Each symbol ends with the weight of its last place in the list. */
  lemma {:induction false} WeightedAt(wf: Freqs, syms: seq<string>, k: nat, i: nat)
    requires i < k <= |syms| && LastOf(syms, i, k)
    ensures syms[i] in Weighted(wf, syms, k)
    ensures Weighted(wf, syms, k)[syms[i]] == SymbolWeight(i, |syms|)
  {
    var m := Weighted(wf, syms, k - 1);
    assert Weighted(wf, syms, k) == m[syms[k - 1] := SymbolWeight(k - 1, |syms|)];
    if i < k - 1 {
      assert syms[k - 1] != syms[i];
      assert LastOf(syms, i, k - 1);
      WeightedAt(wf, syms, k - 1, i);
    }
  }

  /** Of two symbols that are not repeated later, the earlier ends with the larger weight. */
  lemma SymbolsRankInOrder(wf: Freqs, syms: seq<string>, i: nat, j: nat)
    requires i < j < |syms|
    requires LastOf(syms, i, |syms|) && LastOf(syms, j, |syms|)
    ensures Weighted(wf, syms, |syms|)[syms[j]] < Weighted(wf, syms, |syms|)[syms[i]]
  {
    WeightedAt(wf, syms, |syms|, i);
    WeightedAt(wf, syms, |syms|, j);
    SymbolWeightsDecrease(i, j, |syms|);
  }

  /** One symbol per character of `s`. */
  function Singles(s: string): (r: seq<string>)
    ensures |r| == |s|
    ensures forall i :: 0 <= i < |s| ==> r[i] == [s[i]]
  {
    seq(|s|, i requires 0 <= i < |s| => [s[i]])
  }

  /** The four lines of the symbol list, one character per symbol, but for the last token of the third. */
  const SymLine1AsWritten: string := "，。、！？“”‘’〝〞〃"
  const SymLine2: string := "《》︽︾：﹕\U{E796}．‧；′"
  const SymLine3AsWritten: string := "「」（）『』【】［］〔〕｛｝〈〉〖"
  const SymLine4: string := "﹁﹂︵︶﹃﹄︻︼﹇﹈︹︺︷︸︿﹀"

  /**
   * The symbol list as creator.py:156-161 builds it: the ideographic space on
   * the first line is taken for whitespace, and `〗〘〙〚〛` stays one token.
   */
  const SymCharsAsWritten: seq<string> :=
    Singles(SymLine1AsWritten + SymLine2 + SymLine3AsWritten) + ["〗〘〙〚〛"] + Singles(SymLine4)

  /** The symbol list as intended: the ideographic space sixth, and every bracket its own symbol. */
  const SymCharsText: string :=
    "，。、！？\U{3000}“”‘’〝〞〃" + SymLine2 + SymLine3AsWritten + "〗〘〙〚〛" + SymLine4
  const SymChars: seq<string> := Singles(SymCharsText)

  /**
   * As written, the list holds a five-character symbol, which no one-character
   * char equals, and holds neither `〘` nor the ideographic space: whatever
   * weight those had before, the list leaves it.
   */
  lemma AsWrittenSkipsSymbols(wf: Freqs)
    ensures |SymCharsAsWritten| == 57 && |SymCharsAsWritten[40]| == 5
    ensures "〘" !in SymCharsAsWritten && "\U{3000}" !in SymCharsAsWritten
    ensures "〘" in wf ==> Weighted(wf, SymCharsAsWritten, 57)["〘"] == wf["〘"]
    ensures "〘" !in wf ==> "〘" !in Weighted(wf, SymCharsAsWritten, 57)
  {
    AsWrittenLacks();
    assert SymCharsAsWritten[..57] == SymCharsAsWritten;
  }

  /** Neither `〘` nor the ideographic space is a symbol of the list as written. */
  lemma AsWrittenLacks()
    ensures |SymCharsAsWritten| == 57 && |SymCharsAsWritten[40]| == 5
    ensures "〘" !in SymCharsAsWritten && "\U{3000}" !in SymCharsAsWritten
  {
    var head := SymLine1AsWritten + SymLine2 + SymLine3AsWritten;
    var syms := SymCharsAsWritten;
    LinesLack();
    forall j | 0 <= j < |syms| ensures syms[j] != "〘" && syms[j] != "\U{3000}" {
      if j < 40 {
        assert syms[j] == [head[j]];
      } else if j > 40 {
        assert syms[j] == [SymLine4[j - 41]];
      }
    }
  }

  /** The one-character lines of the list as written hold neither `〘` nor the ideographic space. */
  lemma LinesLack()
    ensures |SymLine1AsWritten + SymLine2 + SymLine3AsWritten| == 40 && |SymLine4| == 16
    ensures '〘' !in SymLine1AsWritten + SymLine2 + SymLine3AsWritten && '〘' !in SymLine4
    ensures '\U{3000}' !in SymLine1AsWritten + SymLine2 + SymLine3AsWritten && '\U{3000}' !in SymLine4
  {
  }

  /** With the intended list, `〘` and the ideographic space take the weights of their places. */
  lemma SymbolsWeighted(wf: Freqs)
    ensures |SymChars| == 62
    ensures "\U{3000}" in Weighted(wf, SymChars, 62) && "〘" in Weighted(wf, SymChars, 62)
    ensures Weighted(wf, SymChars, 62)["\U{3000}"] == SymbolWeight(5, 62)
    ensures Weighted(wf, SymChars, 62)["〘"] == SymbolWeight(42, 62)
  {
    var text := SymCharsText;
    assert |text| == 62;
    assert text[5] == '\U{3000}' && text[42] == '〘';
    assert forall j :: 5 < j < 62 ==> text[j] != '\U{3000}';
    assert forall j :: 42 < j < 62 ==> text[j] != '〘';
    WeightedAt(wf, SymChars, 62, 5);
    WeightedAt(wf, SymChars, 62, 42);
  }

  /** One row of the `result` table. */
  datatype Row = Row(code: string, ch: string, freq: real)

  /** `COALESCE(freq, 0)` after the `LEFT JOIN` on `char`: the char's weight, or 0 when it has none. */
  function Coalesce(wf: Freqs, c: string): (r: real)
    ensures c in wf ==> r == wf[c]
    ensures c !in wf ==> r == 0.0
  {
    if c in wf then wf[c] else 0.0
  }

  function RowOf(wf: Freqs, e: Entry): Row {
    Row(e.0, e.1, Coalesce(wf, e.1))
  }

  /**
   * `ORDER BY code ASC, COALESCE(freq,0) DESC`, with `code` compared by its
   * `NOCASE` collation: `a` may come before `b`.
   */
  predicate RowBefore(a: Row, b: Row): (r: bool)
    ensures r ==> !LexLess(FoldCase(b.code), FoldCase(a.code))
    ensures FoldCase(a.code) == FoldCase(b.code) ==> (r <==> a.freq >= b.freq)
  {
    LexLessAsymmetric(FoldCase(a.code), FoldCase(b.code));
    || LexLess(FoldCase(a.code), FoldCase(b.code))
    || (FoldCase(a.code) == FoldCase(b.code) && a.freq >= b.freq)
  }

  lemma RowBeforeTotal(a: Row, b: Row)
    ensures RowBefore(a, b) || RowBefore(b, a)
  {
    LexLessTotal(FoldCase(a.code), FoldCase(b.code));
  }

  lemma RowBeforeTransitive(a: Row, b: Row, c: Row)
    requires RowBefore(a, b) && RowBefore(b, c)
    ensures RowBefore(a, c)
  {
    var ka, kb, kc := FoldCase(a.code), FoldCase(b.code), FoldCase(c.code);
    if LexLess(ka, kb) && LexLess(kb, kc) {
      LexLessTransitive(ka, kb, kc);
    }
  }

  predicate SortedRows(rows: seq<Row>) {
    forall i, j :: 0 <= i < j < |rows| ==> RowBefore(rows[i], rows[j])
  }

  /** Inserting a row into sorted rows, after every row it may not precede. */
  function InsertRow(rows: seq<Row>, x: Row): (r: seq<Row>)
    requires SortedRows(rows)
    ensures SortedRows(r)
    ensures multiset(r) == multiset(rows) + multiset{x}
  {
    if rows == [] || RowBefore(x, rows[0]) then
      SortedFront(rows, x);
      [x] + rows
    else
      var rest := InsertRow(rows[1..], x);
      assert rows == [rows[0]] + rows[1..];
      SortedBehind(rows, x, rest);
      [rows[0]] + rest
  }

  /** A row that may precede the first of sorted rows may precede them all. */
  lemma SortedFront(rows: seq<Row>, x: Row)
    requires SortedRows(rows) && (rows == [] || RowBefore(x, rows[0]))
    ensures SortedRows([x] + rows)
  {
    forall j | 0 < j < |rows| + 1 ensures RowBefore(x, ([x] + rows)[j]) {
      if j > 1 {
        RowBeforeTransitive(x, rows[0], rows[j - 1]);
      }
    }
  }

  /** The first of sorted rows may precede the rest with `x` inserted, when `x` may not precede it. */
  lemma SortedBehind(rows: seq<Row>, x: Row, rest: seq<Row>)
    requires SortedRows(rows) && rows != [] && !RowBefore(x, rows[0])
    requires SortedRows(rest) && multiset(rest) == multiset(rows[1..]) + multiset{x}
    ensures SortedRows([rows[0]] + rest)
  {
    RowBeforeTotal(x, rows[0]);
    forall y | y in rest ensures RowBefore(rows[0], y) {
      assert y in multiset(rest);
      if y != x {
        assert y in rows[1..];
      }
    }
  }

  /** The rows the `result` table holds: one per `lookup` row, with its weight. */
  function ResultRows(t: Table, wf: Freqs): (r: set<Row>)
    ensures forall x: Row :: x in r <==> (x.code, x.ch) in t && x.freq == Coalesce(wf, x.ch)
  {
    assert forall x: Row :: (x.code, x.ch) in t && x.freq == Coalesce(wf, x.ch) ==> x == RowOf(wf, (x.code, x.ch));
    set e | e in t :: RowOf(wf, e)
  }

  /** A sequence with the multiset of a set lists each of its elements exactly once. */
  lemma ListsSet(rows: seq<Row>, s: set<Row>)
    ensures multiset(rows) == multiset(s) ==> |rows| == |s| && forall x :: x in rows <==> x in s
  {
    if multiset(rows) == multiset(s) {
      assert |multiset(rows)| == |rows|;
      assert forall x :: x in rows <==> x in multiset(rows);
    }
  }

  /** A `result` table: exactly the rows of `ResultRows`, each once, in the order of the `ORDER BY`. */
  predicate IsResult(rows: seq<Row>, t: Table, wf: Freqs): (r: bool)
    ensures r ==> |rows| == |t|
    ensures r ==> forall x: Row :: x in rows <==> (x.code, x.ch) in t && x.freq == Coalesce(wf, x.ch)
  {
    ResultRowsOnePerEntry(t, wf);
    ListsSet(rows, ResultRows(t, wf));
    SortedRows(rows) && multiset(rows) == multiset(ResultRows(t, wf))
  }

  /** The result has one row per `lookup` row, and each row carries its char's weight or 0. */
  lemma ResultRowsOnePerEntry(t: Table, wf: Freqs)
    ensures |ResultRows(t, wf)| == |t|
    decreases t
  {
    if t != {} {
      var e :| e in t;
      ResultRowsOnePerEntry(t - {e}, wf);
      assert ResultRows(t, wf) == ResultRows(t - {e}, wf) + {RowOf(wf, e)};
      assert RowOf(wf, e) !in ResultRows(t - {e}, wf);
    }
  }
}
