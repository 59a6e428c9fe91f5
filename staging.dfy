/**
 * The staging database of `populate_db` and `create_wordfreq`: the `lookup`,
 * `wordfreq` and `result` tables, changed in place statement by statement.
 */
module Staging {
  import opened Wrappers
  import opened Text
  import opened Loader
  import opened Lookup
  import opened Ranking

  class Database {
    var lookup: Table
    var wordfreq: Freqs
    var result: seq<Row>

    /** A database whose tables hold what an earlier run left in them. */
    constructor (lookup0: Table, wordfreq0: Freqs)
      ensures lookup == lookup0 && wordfreq == wordfreq0 && result == []
    {
      lookup := lookup0;
      wordfreq := wordfreq0;
      result := [];
    }

    /** `executemany('INSERT OR IGNORE INTO lookup VALUES (?,?)', ps)`: each row goes in unless it is there. */
    method InsertLookup(ps: seq<Entry>)
      modifies this
      ensures lookup == old(lookup) + set p | p in ps
      ensures wordfreq == old(wordfreq) && result == old(result)
    {
      var i := 0;
      while i < |ps|
        invariant 0 <= i <= |ps|
        invariant lookup == old(lookup) + set p | p in ps[..i]
        invariant wordfreq == old(wordfreq) && result == old(result)
      {
        assert ps[..i + 1] == ps[..i] + [ps[i]];
        lookup := lookup + {ps[i]};
        i := i + 1;
      }
      assert ps[..i] == ps;
    }

    /** `DELETE FROM lookup WHERE char=?` for every override char. */
    method DeleteChars(cs: set<string>)
      modifies this
      ensures lookup == set e | e in old(lookup) && e.1 !in cs
      ensures wordfreq == old(wordfreq) && result == old(result)
    {
      var todo := cs;
      while todo != {}
        invariant todo <= cs
        invariant lookup == set e | e in old(lookup) && e.1 !in cs - todo
        invariant wordfreq == old(wordfreq) && result == old(result)
        decreases todo
      {
        var c :| c in todo;
        lookup := set e | e in lookup && e.1 != c;
        todo := todo - {c};
      }
    }

    /** `DELETE FROM lookup WHERE code=?` for every override code. */
    method DeleteCodes(ks: set<string>)
      modifies this
      ensures lookup == set e | e in old(lookup) && e.0 !in ks
      ensures wordfreq == old(wordfreq) && result == old(result)
    {
      var todo := ks;
      while todo != {}
        invariant todo <= ks
        invariant lookup == set e | e in old(lookup) && e.0 !in ks - todo
        invariant wordfreq == old(wordfreq) && result == old(result)
        decreases todo
      {
        var k :| k in todo;
        lookup := set e | e in lookup && e.0 != k;
        todo := todo - {k};
      }
    }

    /** `INSERT OR IGNORE INTO lookup VALUES (?,?)` for every override pair. */
    method InsertDefs(defs: Table)
      modifies this
      ensures lookup == old(lookup) + defs
      ensures wordfreq == old(wordfreq) && result == old(result)
    {
      var todo := defs;
      while todo != {}
        invariant todo <= defs
        invariant lookup == old(lookup) + (defs - todo)
        invariant wordfreq == old(wordfreq) && result == old(result)
        decreases todo
      {
        var d :| d in todo;
        lookup := lookup + {d};
        todo := todo - {d};
      }
    }

    /** The three passes of the symbol overrides, one statement after another. */
    method ApplyOverrides(o: Overrides)
      modifies this
      ensures lookup == Normalised(old(lookup), o)
      ensures wordfreq == old(wordfreq) && result == old(result)
    {
      DeleteChars(SymbolChars(o));
      DeleteCodes(SymbolCodes(o));
      InsertDefs(SymbolDefs(o));
    }

    /**
     * `populate_db` once the source files are read: the one-character pairs go
     * in, then the override table `o` (as the script writes it,
     * `SymbolOverridesAsWritten`). When every override char is one character,
     * a table of one-character chars stays one.
     */
    method PopulateDb(files: seq<seq<string>>, o: Overrides)
      requires NonEmptyFiles(files)
      modifies this
      ensures lookup == Normalised(old(lookup) + (set p | p in OneCharPairs(ReadIncodeOutchar(files))), o)
      ensures OneChar(old(lookup)) && (forall c :: c in SymbolChars(o) ==> |c| == 1) ==> OneChar(lookup)
      ensures UpperCodes(old(lookup)) && (forall k :: k in SymbolCodes(o) ==> NoLowerAscii(k)) ==> UpperCodes(lookup)
      ensures wordfreq == old(wordfreq) && result == old(result)
    {
      var sqlparams := OneCharPairs(ReadIncodeOutchar(files));
      ghost var loaded := lookup + (set p | p in sqlparams);
      InsertLookup(sqlparams);
      assert lookup == loaded;
      ApplyOverrides(o);
      if OneChar(old(lookup)) && forall c :: c in SymbolChars(o) ==> |c| == 1 {
        NormalisedKeepsOneChar(loaded, o);
      }
      if UpperCodes(old(lookup)) && forall k :: k in SymbolCodes(o) ==> NoLowerAscii(k) {
        NormalisedKeepsUpper(loaded, o);
      }
    }

    /** `executemany('INSERT OR IGNORE INTO wordfreq VALUES(?,?)', ps)`: the first count of a char wins. */
    method InsertCorpus(ps: seq<(string, int)>)
      modifies this
      ensures wordfreq == FirstWins(old(wordfreq), ps)
      ensures lookup == old(lookup) && result == old(result)
    {
      var i := 0;
      while i < |ps|
        invariant 0 <= i <= |ps|
        invariant wordfreq == FirstWins(old(wordfreq), ps[..i])
        invariant lookup == old(lookup) && result == old(result)
      {
        assert ps[..i + 1][..i] == ps[..i];
        if ps[i].0 !in wordfreq {
          wordfreq := wordfreq[ps[i].0 := ps[i].1 as real];
        }
        i := i + 1;
      }
      assert ps[..i] == ps;
    }

    /** `INSERT OR IGNORE INTO wordfreq SELECT char, -1 FROM lookup WHERE char<?`. */
    method InsertSentinels(threshold: string)
      modifies this
      ensures wordfreq == WithSentinels(old(wordfreq), lookup, threshold)
      ensures lookup == old(lookup) && result == old(result)
    {
      var below := Below(lookup, threshold);
      var todo := below;
      while todo != {}
        invariant todo <= below
        invariant wordfreq.Keys == old(wordfreq).Keys + (below - todo)
        invariant forall c :: c in wordfreq ==> wordfreq[c] == if c in old(wordfreq) then old(wordfreq)[c] else -1.0
        invariant lookup == old(lookup) && result == old(result)
        decreases todo
      {
        var c :| c in todo;
        if c !in wordfreq {
          wordfreq := wordfreq[c := -1.0];
        }
        todo := todo - {c};
      }
    }

    /** The `INSERT OR REPLACE` loop: symbol `i` of `syms` gets weight `SymbolWeight(i, |syms|)`. */
    method AssignSymbolWeights(syms: seq<string>)
      modifies this
      ensures wordfreq == Weighted(old(wordfreq), syms, |syms|)
      ensures lookup == old(lookup) && result == old(result)
    {
      for i := 0 to |syms|
        invariant wordfreq == Weighted(old(wordfreq), syms, i)
        invariant lookup == old(lookup) && result == old(result)
      {
        wordfreq := wordfreq[syms[i] := SymbolWeight(i, |syms|)];
      }
    }

    /**
     * `CREATE TABLE result AS SELECT … ORDER BY …`: each `lookup` row, with its
     * weight, takes its place in the order.
     */
    method CreateResult()
      modifies this
      ensures IsResult(result, lookup, wordfreq)
      ensures lookup == old(lookup) && wordfreq == old(wordfreq)
    {
      result := [];
      var todo := lookup;
      while todo != {}
        invariant todo <= lookup
        invariant SortedRows(result)
        invariant multiset(result) == multiset(ResultRows(lookup - todo, wordfreq))
        invariant lookup == old(lookup) && wordfreq == old(wordfreq)
        decreases todo
      {
        var e :| e in todo;
        ResultRowsAdd(lookup - todo, wordfreq, e);
        assert (lookup - todo) + {e} == lookup - (todo - {e});
        result := InsertRow(result, RowOf(wordfreq, e));
        todo := todo - {e};
      }
    }

    /**
     * `create_wordfreq` on the lines of the corpus file, with the sentinel
     * threshold and the symbol list (as the script writes them, `CjkThreshold`
     * and `SymCharsAsWritten`). A line the reader fails on ends the run with
     * its error, and nothing is kept.
     */
    method CreateWordfreq(corpus: seq<string>, threshold: string, syms: seq<string>) returns (err: Option<CorpusError>)
      modifies this
      ensures ReadFromFile(corpus).Failure? ==>
                err == Some(ReadFromFile(corpus).error) &&
                lookup == old(lookup) && wordfreq == old(wordfreq) && result == old(result)
      ensures ReadFromFile(corpus).Success? ==>
                && err == None
                && lookup == old(lookup)
                && wordfreq == Weighted(WithSentinels(FirstWins(old(wordfreq), ReadFromFile(corpus).value),
                                                      lookup, threshold), syms, |syms|)
                && IsResult(result, lookup, wordfreq)
    {
      var read := ReadFromFile(corpus);
      if read.Failure? {
        return Some(read.error);
      }
      InsertCorpus(read.value);
      InsertSentinels(threshold);
      AssignSymbolWeights(syms);
      CreateResult();
      err := None;
    }
  }

  /** One more `lookup` row adds its own result row, which was not there before. */
  lemma ResultRowsAdd(t: Table, wf: Freqs, e: Entry)
    requires e !in t
    ensures multiset(ResultRows(t + {e}, wf)) == multiset(ResultRows(t, wf)) + multiset{RowOf(wf, e)}
  {
    assert ResultRows(t + {e}, wf) == ResultRows(t, wf) + {RowOf(wf, e)};
    assert RowOf(wf, e) !in ResultRows(t, wf);
  }
}
