/**
 * The string operations the table creator relies on, over `seq<char>`:
 * Python 2's `strip()`, `split(None, 1)`, `split()`, `split(",")`, `",".join`,
 * `upper()`, `"%-6s"` and `int()`, and SQLite's NOCASE folding and BINARY
 * ordering of text.
 */
module Text {
  import opened Wrappers

  /** Python 2 `str` methods know six whitespace bytes; `unicode` methods know more. */
  datatype Whitespace = Bytes | Unicode

  predicate IsAsciiSpace(c: char) {
    c == ' ' || c == '\t' || c == '\n' || c == '\r' || c == '\U{0B}' || c == '\U{0C}'
  }

  /** `unicode.isspace()` of Python 2.7 (Unicode 5.2). */
  predicate IsSpace(c: char) {
    || IsAsciiSpace(c)
    || '\U{1C}' <= c <= '\U{1F}'
    || c == '\U{85}' || c == '\U{A0}' || c == '\U{1680}' || c == '\U{180E}'
    || '\U{2000}' <= c <= '\U{200A}'
    || c == '\U{2028}' || c == '\U{2029}' || c == '\U{202F}' || c == '\U{205F}'
    || c == '\U{3000}'
  }

  predicate IsWhite(w: Whitespace, c: char) {
    if w == Bytes then IsAsciiSpace(c) else IsSpace(c)
  }

  predicate NoSpace(s: string) {
    forall i :: 0 <= i < |s| ==> !IsSpace(s[i])
  }

  predicate AllWhite(w: Whitespace, s: string) {
    forall i :: 0 <= i < |s| ==> IsWhite(w, s[i])
  }

  /** The first index at or after `i` that does not hold whitespace, or `|s|`. */
  function SkipWhite(w: Whitespace, s: string, i: nat): (j: nat)
    requires i <= |s|
    ensures i <= j <= |s|
    ensures forall k :: i <= k < j ==> IsWhite(w, s[k])
    ensures j < |s| ==> !IsWhite(w, s[j])
    decreases |s| - i
  {
    if i == |s| || !IsWhite(w, s[i]) then i else SkipWhite(w, s, i + 1)
  }

  /** Where the whitespace run that ends at `j` begins. */
  function BackWhite(w: Whitespace, s: string, j: nat): (b: nat)
    requires j <= |s|
    ensures b <= j
    ensures forall k :: b <= k < j ==> IsWhite(w, s[k])
    ensures 0 < b ==> !IsWhite(w, s[b - 1])
  {
    if j == 0 || !IsWhite(w, s[j - 1]) then j else BackWhite(w, s, j - 1)
  }

  /** The end of the token that starts at `i`: the first whitespace at or after `i`, or `|s|`. */
  function TokenEnd(s: string, i: nat): (k: nat)
    requires i <= |s|
    ensures i <= k <= |s|
    ensures forall m :: i <= m < k ==> !IsSpace(s[m])
    ensures k < |s| ==> IsSpace(s[k])
    decreases |s| - i
  {
    if i == |s| || IsSpace(s[i]) then i else TokenEnd(s, i + 1)
  }

  /** `s.lstrip()`. */
  function TrimLeft(w: Whitespace, s: string): string {
    s[SkipWhite(w, s, 0)..]
  }

  /** Empty, or neither end is whitespace of kind `w`: what `strip()` leaves. */
  predicate Trimmed(w: Whitespace, s: string) {
    s == [] || (!IsWhite(w, s[0]) && !IsWhite(w, s[|s| - 1]))
  }

  /** `s.strip()`, on a byte string (`w == Bytes`) or a `unicode` string. */
  function Strip(w: Whitespace, s: string): (r: string)
    ensures r == [] <==> AllWhite(w, s)
    ensures Trimmed(w, r)
  {
    var a := SkipWhite(w, s, 0);
    if a == |s| then [] else s[a..BackWhite(w, s, |s|)]
  }

  /** What `strip()` leaves is the middle of the text, once the whitespace at both ends is cut off. */
  lemma StripMiddle(w: Whitespace, s: string)
    ensures exists a, b :: 0 <= a <= b <= |s| && Strip(w, s) == s[a..b] && AllWhite(w, s[..a]) && AllWhite(w, s[b..])
  {
    var a := SkipWhite(w, s, 0);
    if a == |s| {
      assert Strip(w, s) == s[|s|..|s|] && s[..|s|] == s;
    } else {
      var b := BackWhite(w, s, |s|);
      assert AllWhite(w, s[..a]) && AllWhite(w, s[b..]);
      assert Strip(w, s) == s[a..b];
    }
  }

  /** Whitespace, a trimmed text and whitespace again strip to that text. */
  lemma StripLayout(w: Whitespace, pre: string, t: string, post: string)
    requires AllWhite(w, pre) && AllWhite(w, post) && Trimmed(w, t)
    ensures Strip(w, pre + t + post) == t
  {
    var s := pre + t + post;
    if t == [] {
      assert forall i :: 0 <= i < |s| ==> IsWhite(w, s[i]) by {
        forall i | 0 <= i < |s| ensures IsWhite(w, s[i]) {
          if i < |pre| { assert s[i] == pre[i]; } else { assert s[i] == post[i - |pre|]; }
        }
      }
    } else {
      var a := SkipWhite(w, s, 0);
      assert a == |pre| by {
        assert s[|pre|] == t[0];
        assert forall k :: 0 <= k < |pre| ==> s[k] == pre[k];
      }
      var b := BackWhite(w, s, |s|);
      assert b == |pre| + |t| by {
        assert s[|pre| + |t| - 1] == t[|t| - 1];
        assert forall k :: |pre| + |t| <= k < |s| ==> s[k] == post[k - |pre| - |t|];
      }
      assert s[a..b] == t;
    }
  }

  /** Whatever lies between two non-whitespace characters survives `strip()`. */
  lemma StripKeeps(w: Whitespace, s: string, i: nat, k: nat, j: nat)
    requires i <= k <= j < |s| && !IsWhite(w, s[i]) && !IsWhite(w, s[j])
    ensures s[k] in Strip(w, s)
  {
    var a := SkipWhite(w, s, 0);
    assert a <= i;
    var b := BackWhite(w, s, |s|);
    assert j < b;
    assert Strip(w, s) == s[a..b];
    assert s[a..b][k - a] == s[k];
  }

  /**
   * `s.split(None, 1)` on a `unicode` string: no part when `s` is all whitespace,
   * otherwise its first token and, if anything but whitespace follows, the
   * remainder after the whitespace run that ends the token.
   */
  function SplitOnce(s: string): (r: seq<string>)
    ensures |r| <= 2
    ensures forall i :: 0 <= i < |r| ==> r[i] != [] && !IsSpace(r[i][0])
    ensures |r| >= 1 ==> NoSpace(r[0])
    ensures r == [] <==> AllWhite(Unicode, s)
  {
    var a := SkipWhite(Unicode, s, 0);
    if a == |s| then []
    else
      var k := TokenEnd(s, a);
      var b := SkipWhite(Unicode, s, k);
      if b == |s| then [s[a..k]] else [s[a..k], s[b..]]
  }

  /** A stripped string splits in two exactly when it holds whitespace, and its tail stays stripped. */
  lemma SplitOnceOfStripped(s: string)
    requires Trimmed(Unicode, s)
    ensures |SplitOnce(s)| == 2 <==> !NoSpace(s)
    ensures |SplitOnce(s)| == 2 ==> Trimmed(Unicode, SplitOnce(s)[1])
  {
    if s != [] {
      assert SkipWhite(Unicode, s, 0) == 0;
    }
  }

  /**
   * When a stripped string splits in two, it reads as the first part, a run of
   * whitespace and the second part, with nothing dropped at either end.
   */
  lemma SplitOnceLayout(s: string)
    requires Trimmed(Unicode, s) && |SplitOnce(s)| == 2
    ensures var p := SplitOnce(s);
            && |p[0]| + |p[1]| < |s|
            && p[0] == s[..|p[0]|]
            && p[1] == s[|s| - |p[1]|..]
            && AllWhite(Unicode, s[|p[0]|..|s| - |p[1]|])
  {
    assert SkipWhite(Unicode, s, 0) == 0;
  }

  /** A token, a whitespace run and a text starting with no whitespace split back into token and text. */
  lemma SplitOnceOfLayout(a: string, gap: string, b: string)
    requires a != [] && NoSpace(a)
    requires gap != [] && AllWhite(Unicode, gap)
    requires b != [] && !IsSpace(b[0])
    ensures SplitOnce(a + gap + b) == [a, b]
  {
    var s := a + gap + b;
    assert s[0] == a[0];
    assert SkipWhite(Unicode, s, 0) == 0;
    assert TokenEnd(s, 0) == |a| by {
      assert s[|a|] == gap[0];
      forall i | 0 <= i < |a| ensures !IsSpace(s[i]) { assert s[i] == a[i]; }
    }
    assert SkipWhite(Unicode, s, |a|) == |a| + |gap| by {
      assert s[|a| + |gap|] == b[0];
      forall i | |a| <= i < |a| + |gap| ensures IsWhite(Unicode, s[i]) { assert s[i] == gap[i - |a|]; }
    }
    assert s[..|a|] == a;
    assert s[|a| + |gap|..] == b;
  }

  /** `s.split()` on a `unicode` string: the maximal runs of non-whitespace, in order. */
  function Words(s: string): (r: seq<string>)
    ensures forall i :: 0 <= i < |r| ==> r[i] != [] && NoSpace(r[i])
    ensures r == [] <==> AllWhite(Unicode, s)
    decreases |s|
  {
    var t := TrimLeft(Unicode, s);
    if t == [] then []
    else
      var k := TokenEnd(t, 0);
      [t[..k]] + Words(t[k..])
  }

  /** `sep.join(parts)` for a one-character separator. */
  function Join(parts: seq<string>, sep: char): (r: string)
    ensures |parts| == 1 ==> r == parts[0]
    ensures (forall i :: 0 <= i < |parts| ==> sep !in parts[i]) ==>
              (sep in r <==> |parts| > 1)
    ensures |parts| >= 1 && parts[0] != [] ==> r != [] && r[0] == parts[0][0]
  {
    if parts == [] then []
    else if |parts| == 1 then parts[0]
    else parts[0] + [sep] + Join(parts[1..], sep)
  }

  /** Non-empty tokens free of whitespace. */
  predicate Tokens(ws: seq<string>) {
    forall i :: 0 <= i < |ws| ==> ws[i] != [] && NoSpace(ws[i])
  }

  /** Runs of whitespace to lay tokens out with: any run at the ends, a non-empty one between tokens. */
  predicate Gaps(gaps: seq<string>) {
    && (forall i :: 0 <= i < |gaps| ==> AllWhite(Unicode, gaps[i]))
    && (forall i :: 0 < i < |gaps| - 1 ==> gaps[i] != [])
  }

  /** `gaps[0] + ws[0] + gaps[1] + … + ws[n-1] + gaps[n]`: tokens laid out between runs of whitespace. */
  function Spread(ws: seq<string>, gaps: seq<string>): string
    requires |gaps| == |ws| + 1
  {
    if ws == [] then gaps[0] else gaps[0] + ws[0] + Spread(ws[1..], gaps[1..])
  }

  /** Leading whitespace before a text that starts with none is all `lstrip` removes. */
  lemma TrimLeftLayout(pre: string, t: string)
    requires AllWhite(Unicode, pre) && (t == [] || !IsSpace(t[0]))
    ensures TrimLeft(Unicode, pre + t) == t
  {
    var s := pre + t;
    var a := SkipWhite(Unicode, s, 0);
    assert forall k :: 0 <= k < |pre| ==> s[k] == pre[k];
    if t != [] {
      assert s[|pre|] == t[0];
    }
    assert a == |pre|;
  }

  /** A token ends where the whitespace after it, if any, begins. */
  lemma TokenEndLayout(w: string, rest: string)
    requires w != [] && NoSpace(w) && (rest == [] || IsSpace(rest[0]))
    ensures TokenEnd(w + rest, 0) == |w|
  {
    var s := w + rest;
    assert forall k :: 0 <= k < |w| ==> s[k] == w[k];
    if rest != [] {
      assert s[|w|] == rest[0];
    }
  }

  /** Laid-out tokens start with whitespace, unless the first run is empty and a token comes first. */
  lemma SpreadHead(ws: seq<string>, gaps: seq<string>)
    requires |gaps| == |ws| + 1 && Gaps(gaps) && (ws == [] || gaps[0] != [])
    ensures var s := Spread(ws, gaps); s == [] || IsSpace(s[0])
  {
    if ws != [] {
      assert Spread(ws, gaps)[0] == gaps[0][0];
    }
  }

  /** `split()` gives back the tokens, however they are laid out between runs of whitespace. */
  lemma {:induction false} WordsOfSpread(ws: seq<string>, gaps: seq<string>)
    requires |gaps| == |ws| + 1 && Tokens(ws) && Gaps(gaps)
    ensures Words(Spread(ws, gaps)) == ws
    decreases |ws|
  {
    if ws != [] {
      var rest := Spread(ws[1..], gaps[1..]);
      assert Gaps(gaps[1..]);
      assert Tokens(ws[1..]);
      SpreadHead(ws[1..], gaps[1..]);
      assert Spread(ws, gaps) == gaps[0] + (ws[0] + rest);
      WordsStep(gaps[0], ws[0], rest);
      WordsOfSpread(ws[1..], gaps[1..]);
    }
  }

  /** Whitespace, a token, then text that starts with whitespace: `split()` gives the token first. */
  lemma WordsStep(gap: string, w: string, rest: string)
    requires AllWhite(Unicode, gap) && w != [] && NoSpace(w) && (rest == [] || IsSpace(rest[0]))
    ensures Words(gap + (w + rest)) == [w] + Words(rest)
  {
    var t := w + rest;
    TrimLeftLayout(gap, t);
    TokenEndLayout(w, rest);
    assert t[..|w|] == w && t[|w|..] == rest;
  }

  /** `s.split(sep)`: always at least one part, and no part holds `sep`. */
  function SplitOn(s: string, sep: char): (r: seq<string>)
    ensures |r| >= 1
    ensures forall i :: 0 <= i < |r| ==> sep !in r[i]
    decreases |s|
  {
    if s == [] then [[]]
    else
      var rest := SplitOn(s[1..], sep);
      if s[0] == sep then [[]] + rest else [[s[0]] + rest[0]] + rest[1..]
  }

  lemma {:induction false} SplitOnPrefix(p: string, t: string, sep: char)
    requires sep !in p
    ensures SplitOn(p + t, sep) == [p + SplitOn(t, sep)[0]] + SplitOn(t, sep)[1..]
    decreases |p|
  {
    if p == [] {
      assert p + t == t;
      assert p + SplitOn(t, sep)[0] == SplitOn(t, sep)[0];
      assert [p + SplitOn(t, sep)[0]] + SplitOn(t, sep)[1..] == SplitOn(t, sep);
    } else {
      SplitOnPrefix(p[1..], t, sep);
      assert (p + t)[1..] == p[1..] + t;
      assert [p[0]] + (p[1..] + SplitOn(t, sep)[0]) == p + SplitOn(t, sep)[0];
    }
  }

  /** Splitting a comma-joined list at the commas gives the list back when no item holds a comma. */
  lemma {:induction false} SplitOnJoin(parts: seq<string>, sep: char)
    requires |parts| >= 1
    requires forall i :: 0 <= i < |parts| ==> sep !in parts[i]
    ensures SplitOn(Join(parts, sep), sep) == parts
  {
    var p := parts[0];
    if |parts| == 1 {
      SplitOnPrefix(p, [], sep);
      assert p + [] == p;
    } else {
      var j := Join(parts[1..], sep);
      assert Join(parts, sep) == p + ([sep] + j);
      SplitOnPrefix(p, [sep] + j, sep);
      assert ([sep] + j)[1..] == j;
      SplitOnJoin(parts[1..], sep);
      assert p + [] == p;
    }
  }

  function UpperChar(c: char): char {
    if 'a' <= c <= 'z' then (c as int - 32) as char else c
  }

  function LowerChar(c: char): char {
    if 'A' <= c <= 'Z' then (c as int + 32) as char else c
  }

  predicate NoLowerAscii(s: string) {
    forall i :: 0 <= i < |s| ==> !('a' <= s[i] <= 'z')
  }

  /** `s.upper()` on the ASCII letters of a keyboard code. */
  function Upper(s: string): (r: string)
    ensures |r| == |s|
    ensures forall i :: 0 <= i < |s| ==> r[i] == UpperChar(s[i])
    ensures NoLowerAscii(r)
    ensures NoLowerAscii(s) ==> r == s
  {
    if s == [] then [] else [UpperChar(s[0])] + Upper(s[1..])
  }

  /** The key SQLite's NOCASE collation compares: the 26 ASCII capitals folded to lower case. */
  function FoldCase(s: string): (r: string)
    ensures |r| == |s|
    ensures forall i :: 0 <= i < |s| ==> r[i] == LowerChar(s[i])
  {
    if s == [] then [] else [LowerChar(s[0])] + FoldCase(s[1..])
  }

  /** On codes without lower-case letters, NOCASE equality is plain equality. */
  lemma FoldCaseInjective(a: string, b: string)
    requires NoLowerAscii(a) && NoLowerAscii(b)
    requires FoldCase(a) == FoldCase(b)
    ensures a == b
  {
    forall i | 0 <= i < |a| ensures a[i] == b[i] {
      assert LowerChar(a[i]) == FoldCase(a)[i] == FoldCase(b)[i] == LowerChar(b[i]);
    }
  }

  /** SQLite's BINARY order on text: UTF-8 bytes compare as code points do, lexicographically. */
  predicate LexLess(a: string, b: string): (r: bool)
    ensures r ==> a != b
    decreases |a|
  {
    b != [] && (a == [] || a[0] < b[0] || (a[0] == b[0] && LexLess(a[1..], b[1..])))
  }

  /** A proper prefix sorts below the longer text. */
  lemma {:induction false} LexLessPrefix(a: string, b: string)
    requires |a| < |b| && a == b[..|a|]
    ensures LexLess(a, b)
    decreases |a|
  {
    if a != [] {
      assert a[1..] == b[1..][..|a| - 1];
      LexLessPrefix(a[1..], b[1..]);
    }
  }

  lemma {:induction false} LexLessAsymmetric(a: string, b: string)
    ensures !(LexLess(a, b) && LexLess(b, a))
    decreases |a|
  {
    if a != [] && b != [] && a[0] == b[0] { LexLessAsymmetric(a[1..], b[1..]); }
  }

  lemma {:induction false} LexLessTransitive(a: string, b: string, c: string)
    requires LexLess(a, b) && LexLess(b, c)
    ensures LexLess(a, c)
    decreases |a|
  {
    if a != [] && a[0] == b[0] && b[0] == c[0] {
      LexLessTransitive(a[1..], b[1..], c[1..]);
    }
  }

  lemma {:induction false} LexLessTotal(a: string, b: string)
    ensures a == b || LexLess(a, b) || LexLess(b, a)
    decreases |a|
  {
    if a != [] && b != [] && a[0] == b[0] {
      LexLessTotal(a[1..], b[1..]);
      if a[1..] == b[1..] {
        assert a == [a[0]] + a[1..] && b == [b[0]] + b[1..];
      }
    }
  }

  function Spaces(n: nat): (r: string)
    ensures |r| == n && forall i :: 0 <= i < n ==> r[i] == ' '
  {
    if n == 0 then [] else [' '] + Spaces(n - 1)
  }

  /** `"%-*s" % (width, s)`: `s` left-justified in a field of `width` characters, never truncated. */
  function PadRight(s: string, width: nat): (r: string)
    ensures |r| == if |s| < width then width else |s|
    ensures r[..|s|] == s
    ensures forall i :: |s| <= i < |r| ==> r[i] == ' '
  {
    if |s| < width then s + Spaces(width - |s|) else s
  }

  predicate IsDigit(c: char) {
    '0' <= c <= '9'
  }

  predicate AllDigits(s: string) {
    s != [] && forall i :: 0 <= i < |s| ==> IsDigit(s[i])
  }

  /** The value of a run of decimal digits. */
  function DigitsValue(s: string): (n: nat)
    requires forall i :: 0 <= i < |s| ==> IsDigit(s[i])
    decreases |s|
  {
    if s == [] then 0 else 10 * DigitsValue(s[..|s| - 1]) + DigitValue(s[|s| - 1])
  }

  function DigitValue(c: char): nat
    requires IsDigit(c)
  {
    c as int - '0' as int
  }

  /** `int(tok)` for a whitespace-free token: an optional sign, then ASCII digits. */
  function ParseInt(s: string): (r: Option<int>)
    ensures r.Some? <==> AllDigits(s) || (s != [] && (s[0] == '-' || s[0] == '+') && AllDigits(s[1..]))
    ensures AllDigits(s) ==> r == Some(DigitsValue(s) as int)
    ensures r.Some? && r.value < 0 ==> s[0] == '-'
    ensures s != [] && (s[0] == '-' || s[0] == '+') && AllDigits(s[1..]) ==>
              r == Some(if s[0] == '-' then -(DigitsValue(s[1..]) as int) else DigitsValue(s[1..]) as int)
  {
    if s != [] && (s[0] == '-' || s[0] == '+') then
      var digits := s[1..];
      if AllDigits(digits) then
        Some(if s[0] == '-' then -(DigitsValue(digits) as int) else DigitsValue(digits))
      else None
    else if AllDigits(s) then Some(DigitsValue(s))
    else None
  }

  /** `str(n)` for a natural number. */
  function ShowNat(n: nat): (s: string)
    ensures AllDigits(s) && DigitsValue(s) == n
  {
    if n < 10 then ['0' + n as char]
    else
      var s := ShowNat(n / 10) + ['0' + (n % 10) as char];
      assert s[..|s| - 1] == ShowNat(n / 10);
      s
  }

  /** `str(n)`. */
  function ShowInt(n: int): string {
    if n < 0 then "-" + ShowNat(-n) else ShowNat(n)
  }

  /** `str(n)` is a single word. */
  lemma ShowIntToken(n: int)
    ensures ShowInt(n) != [] && NoSpace(ShowInt(n))
  {
    var s := ShowNat(if n < 0 then -n else n);
    DigitsNoSpace(s);
    if n < 0 {
      var t := ShowInt(n);
      assert t == "-" + s;
      forall i | 0 <= i < |t| ensures !IsSpace(t[i]) {
        if i > 0 { assert t[i] == s[i - 1]; }
      }
    }
  }

  lemma DigitsNoSpace(s: string)
    requires AllDigits(s)
    ensures NoSpace(s)
  {
    forall i | 0 <= i < |s| ensures !IsSpace(s[i]) { assert IsDigit(s[i]); }
  }

  /** `int(str(n)) == n`. */
  lemma ParseShowInt(n: int)
    ensures ParseInt(ShowInt(n)) == Some(n)
  {
    if n < 0 {
      assert ShowInt(n)[1..] == ShowNat(-n);
    }
  }
}
