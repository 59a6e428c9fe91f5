/**
 * `fillin_dayi234`: from the `lookup` table, the longest codes of every char
 * (`dayi4`), and those codes shortened to three keys (`dayi3`) and to two
 * keys (`dayi2`).
 */
module Derive {
  import opened Loader
  import opened Lookup

  /** The longest length among a non-empty set of codes. */
  ghost function MaxLength(codes: set<string>): (m: nat)
    requires codes != {}
    ensures exists c :: c in codes && |c| == m
    ensures forall c :: c in codes ==> |c| <= m
    decreases codes
  {
    var c :| c in codes;
    if codes == {c} then |c|
    else
      var m' := MaxLength(codes - {c});
      if |c| < m' then m' else |c|
  }

  /** The codes the table holds for `ch`. */
  function CodesOf(t: Table, ch: string): set<string> {
    set e | e in t && e.1 == ch :: e.0
  }

  /** No code of the table for the char of `e` is longer than the code of `e`. */
  predicate Longest(t: Table, e: Entry) {
    forall e' :: e' in t && e'.1 == e.1 ==> |e'.0| <= |e.0|
  }

  /**
   * `dupchars.maxcodelen`, then the `dayi4` join of creator.py:94-104: the rows
   * whose code is as long as the longest code of their char. Every such row
   * survives, so a char with two longest codes keeps both, and all the codes
   * of one char in `dayi4` have one length.
   */
  function Dayi4(t: Table): (r: Table)
    ensures r <= t
    ensures forall e, e' :: e in r && e' in t && e'.1 == e.1 ==> |e'.0| <= |e.0|
    ensures forall e, e' :: e in r && e' in r && e.1 == e'.1 ==> |e.0| == |e'.0|
    ensures forall e :: e in t && (forall e' :: e' in t && e'.1 == e.1 ==> |e'.0| <= |e.0|) ==> e in r
  {
    set e | e in t && Longest(t, e)
  }

  /** Every char of the table has a row in `dayi4`: the `LEFT JOIN` never comes up empty. */
  lemma Dayi4CoversChars(t: Table, e: Entry)
    requires e in t
    ensures exists e4 :: e4 in Dayi4(t) && e4.1 == e.1
  {
    var codes := CodesOf(t, e.1);
    assert e.0 in codes;
    var c :| c in codes && |c| == MaxLength(codes);
    var e4 := (c, e.1);
    assert e4 in t;
    forall e' | e' in t && e'.1 == e4.1 ensures |e'.0| <= |e4.0| {
      assert e'.0 in codes;
      assert |e'.0| <= MaxLength(codes);
    }
    assert Longest(t, e4);
  }

  /** The `dayi3` code: a four-key code keeps its keys 1, 2 and 4; any other code stays. */
  function Dayi3Code(code: string): (r: string)
    ensures |code| == 4 ==> r == [code[0], code[1], code[3]]
    ensures |code| != 4 ==> r == code
  {
    if |code| == 4 then code[..2] + code[3..4] else code
  }

  /** The `dayi2` code: a three-key code keeps its keys 1 and 3; any other code stays. */
  function Dayi2Code(code: string): (r: string)
    ensures |code| == 3 ==> r == [code[0], code[2]]
    ensures |code| != 3 ==> r == code
  {
    if |code| == 3 then code[..1] + code[2..3] else code
  }

  /**
   * A code of at most four keys comes out of both steps with at most two keys,
   * its first key and, when it had two or more, its last key.
   */
  lemma Dayi2OfDayi3(code: string)
    requires 0 < |code| <= 4
    ensures var r := Dayi2Code(Dayi3Code(code));
            && 0 < |r| <= 2
            && r[0] == code[0]
            && (|code| >= 2 ==> |r| == 2 && r[1] == code[|code| - 1])
            && (|code| <= 2 ==> r == code)
  {
  }

  /** The `dayi3` table: every `dayi4` row with its code shortened. */
  function Dayi3(t4: Table): (r: Table)
    ensures forall e :: e in t4 ==> (Dayi3Code(e.0), e.1) in r
    ensures forall e :: e in r ==> exists e4 :: e4 in t4 && e == (Dayi3Code(e4.0), e4.1)
  {
    set e | e in t4 :: (Dayi3Code(e.0), e.1)
  }

  /** The `dayi2` table: every `dayi3` row with its code shortened. */
  function Dayi2(t3: Table): (r: Table)
    ensures forall e :: e in t3 ==> (Dayi2Code(e.0), e.1) in r
    ensures forall e :: e in r ==> exists e3 :: e3 in t3 && e == (Dayi2Code(e3.0), e3.1)
  {
    set e | e in t3 :: (Dayi2Code(e.0), e.1)
  }

  /** Codes of one to four keys, as in the Dayi tables. */
  predicate DayiCodes(t: Table) {
    forall e :: e in t ==> 0 < |e.0| <= 4
  }

  /** Every char of the table keeps a row in `dayi2`. */
  lemma Dayi2CoversChars(t: Table, e: Entry)
    requires e in t
    ensures exists e2 :: e2 in Dayi2(Dayi3(Dayi4(t))) && e2.1 == e.1
  {
    Dayi4CoversChars(t, e);
    var e4 :| e4 in Dayi4(t) && e4.1 == e.1;
    var e3 := (Dayi3Code(e4.0), e4.1);
    assert e3 in Dayi3(Dayi4(t));
    assert (Dayi2Code(e3.0), e3.1) in Dayi2(Dayi3(Dayi4(t)));
  }

  /**
   * From a table of one- to four-key codes, each `dayi2` code has at most two
   * keys and starts with the first key of a longest code of its char.
   */
  lemma Dayi2Codes(t: Table, e2: Entry)
    requires DayiCodes(t) && e2 in Dayi2(Dayi3(Dayi4(t)))
    ensures 0 < |e2.0| <= 2
    ensures exists e4 :: e4 in Dayi4(t) && e4.1 == e2.1 && e2.0[0] == e4.0[0]
  {
    var e3 :| e3 in Dayi3(Dayi4(t)) && e2 == (Dayi2Code(e3.0), e3.1);
    var e4 :| e4 in Dayi4(t) && e3 == (Dayi3Code(e4.0), e4.1);
    assert 0 < |e4.0| <= 4 by {
      assert e4 in t;
    }
    Dayi2OfDayi3(e4.0);
  }
}
