/**
 * `read_incode_outchar`: the lines of the numbered `.cin` source tables,
 * turned into (code, char) pairs.
 */
module Loader {
  import opened Wrappers
  import opened Text

  /** One row of the `lookup` table: (code, char). */
  type Entry = (string, string)

  predicate IsCommentLine(l: string)
    requires l != []
  {
    l[0] == '#' || l[0] == '%'
  }

  /**
   * What one line of a source table yields. `readlines` never produces an
   * empty line, hence the precondition. The byte-string test for a space comes
   * first; the split itself happens on the decoded, Unicode-stripped text.
   */
  function ParseLine(l: string): (r: Option<Entry>)
    requires l != []
    ensures r.Some? ==> r.value.0 != [] && NoLowerAscii(r.value.0) && r.value.1 != []
  {
    if IsCommentLine(l) || ' ' !in Strip(Bytes, l) then None
    else
      var parts := SplitOnce(Strip(Unicode, l));
      if |parts| != 2 then None else Some((Upper(parts[0]), parts[1]))
  }

  /**
   * A line yields a pair exactly when it is no comment, its byte-stripped text
   * holds a space and its Unicode-stripped text holds whitespace.
   */
  lemma ParseLineAccepts(l: string)
    requires l != []
    ensures ParseLine(l).Some? <==>
              !IsCommentLine(l) && ' ' in Strip(Bytes, l) && !NoSpace(Strip(Unicode, l))
  {
    SplitOnceOfStripped(Strip(Unicode, l));
  }

  /**
   * `t` is the code's token (upper-cased into `code`), a run of whitespace, and
   * `ch`: the whole stripped remainder, not just its first token.
   */
  predicate Fields(t: string, code: string, ch: string) {
    && NoSpace(code) && Trimmed(Unicode, ch)
    && |code| + |ch| < |t|
    && code == Upper(t[..|code|])
    && ch == t[|t| - |ch|..]
    && AllWhite(Unicode, t[|code|..|t| - |ch|])
  }

  /** The pair a line yields lies in the stripped line as `Fields` describes. */
  lemma ParseLineFields(l: string)
    requires l != [] && ParseLine(l).Some?
    ensures Fields(Strip(Unicode, l), ParseLine(l).value.0, ParseLine(l).value.1)
  {
    ParseLineSplit(l);
    SplitFields(Strip(Unicode, l));
  }

  /** An accepted line is split once, after stripping, into the code's token and the char. */
  lemma ParseLineSplit(l: string)
    requires l != [] && ParseLine(l).Some?
    ensures var t := Strip(Unicode, l);
            && Trimmed(Unicode, t) && |SplitOnce(t)| == 2
            && ParseLine(l).value == (Upper(SplitOnce(t)[0]), SplitOnce(t)[1])
  {
  }

  /** `ParseLineFields` for the stripped line itself. */
  lemma SplitFields(t: string)
    requires Trimmed(Unicode, t) && |SplitOnce(t)| == 2
    ensures Fields(t, Upper(SplitOnce(t)[0]), SplitOnce(t)[1])
  {
    SplitOnceOfStripped(t);
    SplitOnceLayout(t);
    UpperKeepsNoSpace(SplitOnce(t)[0]);
  }

  /** Upper-casing touches ASCII letters only, so it adds no whitespace. */
  lemma UpperKeepsNoSpace(s: string)
    requires NoSpace(s)
    ensures NoSpace(Upper(s))
  {
    forall i | 0 <= i < |s| ensures !IsSpace(Upper(s)[i]) {
      assert Upper(s)[i] == UpperChar(s[i]);
      UpperCharSpace(s[i]);
    }
  }

  /** Upper-casing a letter never makes whitespace. */
  lemma UpperCharSpace(c: char)
    ensures IsSpace(UpperChar(c)) ==> IsSpace(c)
  {
    if 'a' <= c <= 'z' {
      assert 'A' <= UpperChar(c) <= 'Z';
    }
  }

  predicate NonEmptyLines(lines: seq<string>) {
    forall i :: 0 <= i < |lines| ==> lines[i] != []
  }

  /** Line `i` of `lines` yields the pair `p`. */
  predicate Yields(lines: seq<string>, i: int, p: Entry)
    requires NonEmptyLines(lines)
  {
    0 <= i < |lines| && ParseLine(lines[i]) == Some(p)
  }

  /** The pairs one file yields, in line order: one per line `ParseLine` accepts. */
  function ParseLines(lines: seq<string>): (r: seq<Entry>)
    requires NonEmptyLines(lines)
    ensures |r| <= |lines|
    ensures forall p :: p in r <==> exists i :: Yields(lines, i, p)
    ensures forall p :: p in r ==> NoLowerAscii(p.0)
  {
    if lines == [] then []
    else
      YieldsSplit(lines);
      var rest := ParseLines(lines[1..]);
      match ParseLine(lines[0])
      case Some(p0) => [p0] + rest
      case None => rest
  }

  /** A line of `lines` yields `p` when the first does, or a line of the others. */
  lemma YieldsSplit(lines: seq<string>)
    requires NonEmptyLines(lines) && lines != []
    ensures forall p :: (exists i :: Yields(lines, i, p)) <==>
                        ParseLine(lines[0]) == Some(p) || exists i :: Yields(lines[1..], i, p)
  {
    forall p | exists i :: Yields(lines, i, p)
      ensures ParseLine(lines[0]) == Some(p) || exists i :: Yields(lines[1..], i, p)
    {
      var i :| Yields(lines, i, p);
      if i > 0 {
        assert Yields(lines[1..], i - 1, p);
      }
    }
    forall p, i | Yields(lines[1..], i, p) ensures Yields(lines, i + 1, p) {
    }
    forall p | ParseLine(lines[0]) == Some(p) ensures Yields(lines, 0, p) {
    }
  }

  predicate NonEmptyFiles(files: seq<seq<string>>) {
    forall f :: 0 <= f < |files| ==> NonEmptyLines(files[f])
  }

  /** The sequences of `ss`, one after another. */
  function Concat<T(==,!new)>(ss: seq<seq<T>>): (r: seq<T>)
    ensures forall x :: x in r <==> exists k :: 0 <= k < |ss| && x in ss[k]
  {
    if ss == [] then []
    else
      var rest := Concat(ss[1..]);
      forall x | exists k :: 0 <= k < |ss| && x in ss[k]
        ensures x in ss[0] || x in rest
      {
        var k :| 0 <= k < |ss| && x in ss[k];
        if k > 0 {
          assert x in ss[1..][k - 1];
        }
      }
      forall x, k | 0 <= k < |ss[1..]| && x in ss[1..][k] ensures x in ss[k + 1] {
      }
      ss[0] + rest
  }

  /** `read_incode_outchar(files)`: the pairs of every file, file after file. */
  function ReadIncodeOutchar(files: seq<seq<string>>): (r: seq<Entry>)
    requires NonEmptyFiles(files)
    ensures forall p :: p in r <==> exists f :: 0 <= f < |files| && p in ParseLines(files[f])
    ensures forall p :: p in r ==> NoLowerAscii(p.0)
  {
    var perFile := seq(|files|, f requires 0 <= f < |files| => ParseLines(files[f]));
    assert forall f :: 0 <= f < |files| ==> perFile[f] == ParseLines(files[f]);
    Concat(perFile)
  }

  /** Codes are stored upper-cased, so `ab` and `AB` in a source table give the same entry. */
  lemma CodeCaseIgnored(code: string, ch: string)
    requires code != [] && NoSpace(code) && code[0] != '#' && code[0] != '%'
    requires ch != [] && Trimmed(Unicode, ch)
    ensures ParseLine(code + " " + ch) == ParseLine(Upper(code) + " " + ch)
    ensures ParseLine(code + " " + ch) == Some((Upper(code), ch))
  {
    UpperKeepsNoSpace(code);
    assert Upper(code)[0] == UpperChar(code[0]);
    SpacedLine(code, ch);
    SpacedLine(Upper(code), ch);
    assert Upper(Upper(code)) == Upper(code);
  }

  /** `ParseFields` for a code and a char with one space between them and nothing around. */
  lemma SpacedLine(code: string, ch: string)
    requires code != [] && NoSpace(code) && code[0] != '#' && code[0] != '%'
    requires ch != [] && Trimmed(Unicode, ch)
    ensures ParseLine(code + " " + ch) == Some((Upper(code), ch))
  {
    var e: string := [];
    var l := code + " " + ch;
    assert e + code == code && l + e == l;
    assert AllWhite(Unicode, e) && AllWhite(Unicode, " ") && ' ' in " ";
    ParseFields(e, code, " ", ch, e);
  }

  /**
   * A line laid out as whitespace, a code, a run of whitespace holding a space,
   * a char and whitespace again (the newline `readlines` keeps) parses into
   * the upper-cased code and that char, even when the char holds spaces.
   */
  lemma ParseFields(pre: string, code: string, gap: string, ch: string, post: string)
    requires AllWhite(Unicode, pre) && AllWhite(Unicode, post)
    requires code != [] && NoSpace(code)
    requires pre == [] ==> code[0] != '#' && code[0] != '%'
    requires AllWhite(Unicode, gap) && ' ' in gap
    requires ch != [] && Trimmed(Unicode, ch)
    ensures ParseLine(pre + code + gap + ch + post) == Some((Upper(code), ch))
  {
    var l := pre + code + gap + ch + post;
    LayoutNotComment(pre, code, gap, ch, post);
    LayoutByteSpace(pre, code, gap, ch, post);
    LayoutStrip(pre, code, gap, ch, post);
    SplitOnceOfLayout(code, gap, ch);
    AcceptedLine(l, code, ch);
  }

  /** A line that passes both tests and whose stripped text splits into a token and `ch`. */
  lemma AcceptedLine(l: string, code: string, ch: string)
    requires l != [] && !IsCommentLine(l) && ' ' in Strip(Bytes, l)
    requires SplitOnce(Strip(Unicode, l)) == [code, ch]
    ensures ParseLine(l) == Some((Upper(code), ch))
  {
  }

  /** A line starting with whitespace, or with a code that starts with no `#` or `%`, is no comment. */
  lemma LayoutNotComment(pre: string, code: string, gap: string, ch: string, post: string)
    requires AllWhite(Unicode, pre) && code != []
    requires pre == [] ==> code[0] != '#' && code[0] != '%'
    ensures pre + code + gap + ch + post != [] && !IsCommentLine(pre + code + gap + ch + post)
  {
    var l := pre + code + gap + ch + post;
    if pre == [] {
      assert l[0] == code[0];
    } else {
      assert l[0] == pre[0];
    }
  }

  /** The space of the gap lies between non-whitespace, so the byte-stripped line keeps it. */
  lemma LayoutByteSpace(pre: string, code: string, gap: string, ch: string, post: string)
    requires code != [] && NoSpace(code)
    requires ' ' in gap
    requires ch != [] && Trimmed(Unicode, ch)
    ensures ' ' in Strip(Bytes, pre + code + gap + ch + post)
  {
    var l := pre + code + gap + ch + post;
    var q :| 0 <= q < |gap| && gap[q] == ' ';
    var p := |pre|;
    var e := |pre| + |code| + |gap| + |ch| - 1;
    assert l[p] == code[0];
    assert l[p + |code| + q] == ' ';
    assert l[e] == ch[|ch| - 1];
    StripKeeps(Bytes, l, p, p + |code| + q, e);
  }

  /** Unicode stripping leaves the code, the gap and the char. */
  lemma LayoutStrip(pre: string, code: string, gap: string, ch: string, post: string)
    requires AllWhite(Unicode, pre) && AllWhite(Unicode, post)
    requires code != [] && NoSpace(code)
    requires ch != [] && Trimmed(Unicode, ch)
    ensures Strip(Unicode, pre + code + gap + ch + post) == code + gap + ch
  {
    var t := code + gap + ch;
    assert pre + code + gap + ch + post == pre + t + post;
    assert t[0] == code[0] && t[|t| - 1] == ch[|ch| - 1];
    StripLayout(Unicode, pre, t, post);
  }
}
