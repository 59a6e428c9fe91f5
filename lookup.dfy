/**
 * The `lookup` table of `populate_db`: a set of (code, char) rows keyed by the
 * pair, filled with `INSERT OR IGNORE`, then normalised by the symbol overrides.
 */
module Lookup {
  import opened Text
  import opened Loader

  /** `lookup(code, char, PRIMARY KEY(code, char))`: a row is there or not. */
  type Table = set<Entry>

  /**
   * The override table, line by line: each symbol code and the chars it must
   * type. `code_dict` turns the lines into a dict; its codes are distinct
   * (`DistinctCodes`), so no line is lost on the way.
   */
  type Overrides = seq<(string, seq<string>)>

  predicate DistinctCodes(o: Overrides) {
    forall i, j :: 0 <= i < j < |o| ==> o[i].0 != o[j].0
  }

  /**
   * The override codes, the keys of `code_dict`: one per line, so as many as
   * there are lines when no code repeats.
   */
  function SymbolCodes(o: Overrides): (r: set<string>)
    ensures forall k :: k in r <==> exists i :: 0 <= i < |o| && o[i].0 == k
    ensures |r| <= |o|
    ensures DistinctCodes(o) ==> |r| == |o|
  {
    CodesCount(o);
    set i | 0 <= i < |o| :: o[i].0
  }

  /** The codes of the lines are no more than the lines, and as many when they are distinct. */
  lemma {:induction false} CodesCount(o: Overrides)
    ensures |set i | 0 <= i < |o| :: o[i].0| <= |o|
    ensures DistinctCodes(o) ==> |set i | 0 <= i < |o| :: o[i].0| == |o|
    decreases |o|
  {
    if o != [] {
      var tail := o[1..];
      CodesCount(tail);
      var all := set i | 0 <= i < |o| :: o[i].0;
      var rest := set i | 0 <= i < |tail| :: tail[i].0;
      assert all == {o[0].0} + rest by {
        forall k | k in all ensures k in {o[0].0} + rest {
          var i :| 0 <= i < |o| && o[i].0 == k;
          if i > 0 {
            assert tail[i - 1] == o[i];
          }
        }
        forall k | k in rest ensures k in all {
          var i :| 0 <= i < |tail| && tail[i].0 == k;
          assert o[i + 1] == tail[i];
        }
      }
      DistinctTail(o);
      if DistinctCodes(o) {
        assert o[0].0 !in rest;
      }
    }
  }

  /** With distinct codes, the lines after the first have distinct codes, none of them the first's. */
  lemma DistinctTail(o: Overrides)
    requires o != []
    ensures DistinctCodes(o) ==> DistinctCodes(o[1..]) && forall i :: 0 <= i < |o[1..]| ==> o[1..][i].0 != o[0].0
  {
    if DistinctCodes(o) {
      forall i, j | 0 <= i < j < |o[1..]| ensures o[1..][i].0 != o[1..][j].0 {
        assert o[1..][i] == o[i + 1] && o[1..][j] == o[j + 1];
      }
      forall i | 0 <= i < |o[1..]| ensures o[1..][i].0 != o[0].0 {
        assert o[1..][i] == o[i + 1];
      }
    }
  }

  /** No code of the table holds a lower-case ASCII letter: codes are stored upper-cased. */
  predicate UpperCodes(t: Table) {
    forall e :: e in t ==> NoLowerAscii(e.0)
  }

  /**
   * In a table of upper-cased codes, two rows the `NOCASE` key on `code` makes
   * equal, with equal chars, are the same row: the key is the pair itself.
   */
  lemma NoCaseKeyIsPair(t: Table, e1: Entry, e2: Entry)
    requires UpperCodes(t) && e1 in t && e2 in t
    requires FoldCase(e1.0) == FoldCase(e2.0) && e1.1 == e2.1
    ensures e1 == e2
  {
    FoldCaseInjective(e1.0, e2.0);
  }

  /** Normalising by override codes without lower-case letters keeps the codes upper-cased. */
  lemma NormalisedKeepsUpper(t: Table, o: Overrides)
    requires UpperCodes(t)
    requires forall k :: k in SymbolCodes(o) ==> NoLowerAscii(k)
    ensures UpperCodes(Normalised(t, o))
  {
    forall e | e in Normalised(t, o) ensures NoLowerAscii(e.0) {
      if e !in t {
        var i :| 0 <= i < |o| && e.0 == o[i].0 && e.1 in o[i].1;
        assert e.0 in SymbolCodes(o);
      }
    }
  }

  /** The override codes, as written and as intended, hold no letters at all. */
  lemma OverrideCodesUpper()
    ensures forall k :: k in SymbolCodes(SymbolOverridesAsWritten) ==> NoLowerAscii(k)
    ensures forall k :: k in SymbolCodes(SymbolOverrides) ==> NoLowerAscii(k)
  {
    assert forall i :: 0 <= i < |OtherOverrides| ==> NoLowerAscii(OtherOverrides[i].0);
    forall k | k in SymbolCodes(SymbolOverridesAsWritten) ensures NoLowerAscii(k) {
      var i :| 0 <= i < |SymbolOverridesAsWritten| && SymbolOverridesAsWritten[i].0 == k;
      if i > 0 { assert SymbolOverridesAsWritten[i] == OtherOverrides[i - 1]; }
    }
    forall k | k in SymbolCodes(SymbolOverrides) ensures NoLowerAscii(k) {
      var i :| 0 <= i < |SymbolOverrides| && SymbolOverrides[i].0 == k;
      if i > 0 { assert SymbolOverrides[i] == OtherOverrides[i - 1]; }
    }
  }

  /** Every char of the table is a single character. */
  predicate OneChar(t: Table) {
    forall e :: e in t ==> |e.1| == 1
  }

  /** The pairs whose char is one character long, in order (`sqlparams`). */
  function OneCharPairs(cps: seq<Entry>): (r: seq<Entry>)
    ensures |r| <= |cps|
    ensures forall p :: p in r <==> p in cps && |p.1| == 1
  {
    if cps == [] then []
    else
      var rest := OneCharPairs(cps[1..]);
      assert forall p :: p in cps <==> p == cps[0] || p in cps[1..];
      if |cps[0].1| == 1 then [cps[0]] + rest else rest
  }

  /**
   * Inserting rows keyed by the whole row never duplicates one: the table grows
   * by the distinct rows it did not hold, and by at most one per inserted row.
   */
  lemma {:induction false} InsertedDistinct(t: Table, ps: seq<Entry>)
    ensures |t + set p | p in ps| <= |t| + |ps|
    ensures (set p | p in ps) <= t ==> t + (set p | p in ps) == t
    decreases |ps|
  {
    if ps != [] {
      InsertedDistinct(t + {ps[0]}, ps[1..]);
      assert t + (set p | p in ps) == (t + {ps[0]}) + (set p | p in ps[1..]);
    }
  }

  /**
   * Every (code, char) pair of the override table. When no code repeats, the
   * pairs of a code are exactly the chars of its line, as `code_dict[code]` lists them.
   */
  function SymbolDefs(o: Overrides): (r: Table)
    ensures forall e :: e in r ==> exists i :: 0 <= i < |o| && e.0 == o[i].0 && e.1 in o[i].1
    ensures forall i, c :: 0 <= i < |o| && c in o[i].1 ==> (o[i].0, c) in r
    ensures DistinctCodes(o) ==> forall i, c :: 0 <= i < |o| ==> ((o[i].0, c) in r <==> c in o[i].1)
  {
    set i, c | 0 <= i < |o| && c in o[i].1 :: (o[i].0, c)
  }

  /** Every char some override code must type: the chars deleted are those of the pairs inserted. */
  function SymbolChars(o: Overrides): (r: set<string>)
    ensures r == set e | e in SymbolDefs(o) :: e.1
  {
    var r := set i, c | 0 <= i < |o| && c in o[i].1 :: c;
    assert r == set e | e in SymbolDefs(o) :: e.1 by {
      forall c | c in r ensures c in set e | e in SymbolDefs(o) :: e.1 {
        var i :| 0 <= i < |o| && c in o[i].1;
        assert (o[i].0, c) in SymbolDefs(o);
      }
    }
    r
  }

  /**
   * The three passes of creator.py:79-81: drop every row whose char is an
   * override char, then every row whose code is an override code, then insert
   * every override pair.
   */
  function Normalised(t: Table, o: Overrides): (r: Table)
    ensures SymbolDefs(o) <= r
    ensures forall e :: e in r && (e.1 in SymbolChars(o) || e.0 in SymbolCodes(o)) ==> e in SymbolDefs(o)
    ensures forall e: Entry :: e.1 !in SymbolChars(o) && e.0 !in SymbolCodes(o) ==> (e in r <==> e in t)
  {
    var withoutChars := set e | e in t && e.1 !in SymbolChars(o);
    var withoutCodes := set e | e in withoutChars && e.0 !in SymbolCodes(o);
    withoutCodes + SymbolDefs(o)
  }

  /** Normalising twice changes nothing more. */
  lemma NormalisedIdempotent(t: Table, o: Overrides)
    ensures Normalised(Normalised(t, o), o) == Normalised(t, o)
  {
    var once := Normalised(t, o);
    forall e: Entry ensures e in Normalised(once, o) <==> e in once {
      if e.1 in SymbolChars(o) || e.0 in SymbolCodes(o) {
        assert e in Normalised(once, o) ==> e in SymbolDefs(o);
        assert e in once ==> e in SymbolDefs(o);
      }
    }
  }

  /** A table of one-character chars stays so when every override char is one character. */
  lemma NormalisedKeepsOneChar(t: Table, o: Overrides)
    requires OneChar(t)
    requires forall c :: c in SymbolChars(o) ==> |c| == 1
    ensures OneChar(Normalised(t, o))
  {
    forall e | e in Normalised(t, o) ensures |e.1| == 1 {
      if e.1 in SymbolChars(o) || e.0 in SymbolCodes(o) {
        var i, c :| 0 <= i < |o| && c in o[i].1 && e == (o[i].0, c);
        assert c in SymbolChars(o);
      }
    }
  }

  /**
   * The override table as creator.py:60-74 builds it. The `=` line ends in an
   * ideographic space that `split()` takes for whitespace, so that list ends
   * in an empty char instead.
   */
  const SymbolOverridesAsWritten: Overrides :=
    [("=", ["，", "。", "、", "！", "？", "「", "」", "（", "）", "『", "』", ""])] + OtherOverrides

  /** The override table as intended: the `=` list ends in the ideographic space U+3000. */
  const SymbolOverrides: Overrides :=
    [("=", ["，", "。", "、", "！", "？", "「", "」", "（", "）", "『", "』", "\U{3000}"])] + OtherOverrides

  /** The lines after the `=` line, alike in both tables. */
  const OtherOverrides: Overrides := [
    ("=,", ["，", "“", "”", "‘", "’", "〝", "〞", "〃"]),
    ("=,,", ["《", "︽", "〈", "︿", "∩", "∪", "∫", "∮", "≦", "◢"]),
    ("=.", ["。", "、", "﹕", "\U{E796}", "．", "：", "‥", "…", "‧", "∴", "∵"]),
    ("=..", ["》", "︾", "〉", "﹀", "＞", "∟", "∠", "≧", "⊥", "⊿"]),
    ("='", ["′"]),
    ("=''", ["」"]),
    ("=;", ["；"]),
    ("=;;", ["："]),
    ("=[", ["「", "（", "『", "【", "［", "〔", "｛", "〖", "〘", "〚", "╭"]),
    ("=[[", ["﹁", "︵", "﹃", "︻", "﹈", "︹", "︷", "╰"]),
    ("=]", ["」", "）", "』", "】", "］", "〕", "｝", "〗", "〙", "〛", "╯"]),
    ("=]]", ["﹂", "︶", "﹄", "︼", "﹇", "︺", "︸", "╮"])
  ]

  /** As written, normalisation always puts a row with an empty char into the table. */
  lemma AsWrittenAddsEmptyChar(t: Table)
    ensures ("=", "") in Normalised(t, SymbolOverridesAsWritten)
    ensures !OneChar(Normalised(t, SymbolOverridesAsWritten))
  {
    var o := SymbolOverridesAsWritten;
    assert "" in o[0].1 && o[0].0 == "=";
    assert ("=", "") in SymbolDefs(o);
  }

  /** No override code is on two lines, so `code_dict` keeps every line. */
  lemma SymbolOverridesDistinct()
    ensures DistinctCodes(SymbolOverrides) && DistinctCodes(SymbolOverridesAsWritten)
  {
  }

  /** Every intended override char is one character. */
  lemma SymbolOverridesOneChar()
    ensures forall c :: c in SymbolChars(SymbolOverrides) ==> |c| == 1
  {
    var o := SymbolOverrides;
    OtherOverridesOneChar();
    assert forall i, c :: 0 <= i < |o| && c in o[i].1 ==> |c| == 1 by {
      forall i, c | 0 <= i < |o| && c in o[i].1 ensures |c| == 1 {
        if i > 0 {
          assert o[i] == OtherOverrides[i - 1];
        }
      }
    }
    LinesOneChar(o);
  }

  /** When every line lists one-character chars only, every override char is one character. */
  lemma LinesOneChar(o: Overrides)
    requires forall i, c :: 0 <= i < |o| && c in o[i].1 ==> |c| == 1
    ensures forall c :: c in SymbolChars(o) ==> |c| == 1
  {
    forall c | c in SymbolChars(o) ensures |c| == 1 {
      var e :| e in SymbolDefs(o) && e.1 == c;
      var i, c' :| 0 <= i < |o| && c' in o[i].1 && e == (o[i].0, c');
    }
  }

  /** Every char of the lines after the `=` line is one character. */
  lemma OtherOverridesOneChar()
    ensures forall i, c :: 0 <= i < |OtherOverrides| && c in OtherOverrides[i].1 ==> |c| == 1
  {
  }

  /**
   * `populate_db` on a table of one-character chars: whatever the source
   * tables hold, the table it leaves has one-character chars only.
   */
  lemma PopulatedOneChar(t: Table, cps: seq<Entry>)
    requires OneChar(t)
    ensures OneChar(Normalised(t + (set p | p in OneCharPairs(cps)), SymbolOverrides))
  {
    SymbolOverridesOneChar();
    NormalisedKeepsOneChar(t + (set p | p in OneCharPairs(cps)), SymbolOverrides);
  }
}
