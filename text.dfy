/** The string operations of Rust's standard library that the registry
    switcher relies on, over `string` = `seq<char>` (a `char` is a Unicode
    scalar value): `trim`, `starts_with`, `trim_start_matches`, the decimal
    formatting of an integer, `join("\n")`, the line splitting of
    `BufRead::lines`, and the ordering of `String`. */
module Text {

  /** The Unicode White_Space property, which is what `str::trim` strips. */
  predicate IsWhitespace(c: char) {
    var n := c as int;
    || n == 0x20 || 0x09 <= n <= 0x0D || n == 0x85 || n == 0xA0 || n == 0x1680
    || 0x2000 <= n <= 0x200A || n == 0x2028 || n == 0x2029 || n == 0x202F
    || n == 0x205F || n == 0x3000
  }

  predicate StartsWith(s: string, prefix: string) {
    |prefix| <= |s| && s[..|prefix|] == prefix
  }

  /** `str::trim_start`: the longest suffix that does not start with white space. */
  function TrimStart(s: string): (r: string)
  {
    if s != [] && IsWhitespace(s[0]) then TrimStart(s[1..]) else s
  }

  /** `str::trim_end`: the longest prefix that does not end with white space. */
  function TrimEnd(s: string): (r: string)
  {
    if s != [] && IsWhitespace(s[|s| - 1]) then TrimEnd(s[..|s| - 1]) else s
  }

  /** What `trim_start` strips: leading white space, and only that. */
  lemma {:induction false} TrimStartSpec(s: string)
    ensures |TrimStart(s)| <= |s| && TrimStart(s) == s[|s| - |TrimStart(s)|..]
    ensures TrimStart(s) == [] || !IsWhitespace(TrimStart(s)[0])
    ensures forall i :: 0 <= i < |s| - |TrimStart(s)| ==> IsWhitespace(s[i])
  {
    if s != [] && IsWhitespace(s[0]) {
      var t := s[1..];
      TrimStartSpec(t);
      assert TrimStart(s) == TrimStart(t);
      assert forall i :: 1 <= i < |s| ==> s[i] == t[i - 1];
    }
  }

  /** What `trim_end` strips: trailing white space, and only that. */
  lemma {:induction false} TrimEndSpec(s: string)
    ensures |TrimEnd(s)| <= |s| && TrimEnd(s) == s[..|TrimEnd(s)|]
    ensures TrimEnd(s) == [] || !IsWhitespace(TrimEnd(s)[|TrimEnd(s)| - 1])
    ensures forall i :: |TrimEnd(s)| <= i < |s| ==> IsWhitespace(s[i])
  {
    if s != [] && IsWhitespace(s[|s| - 1]) {
      TrimEndSpec(s[..|s| - 1]);
    }
  }

  /** `str::trim`. */
  function Trim(s: string): string {
    TrimEnd(TrimStart(s))
  }

  lemma TrimShorter(s: string)
    ensures |Trim(s)| <= |s|
  {
    TrimStartSpec(s);
    TrimEndSpec(TrimStart(s));
  }

  /** `k` copies of `p`, one after another. */
  function Repeat(p: string, k: nat): string {
    if k == 0 then [] else p + Repeat(p, k - 1)
  }

  /** `str::trim_start_matches` with a string pattern: the prefix is
      stripped for as long as the text starts with it. */
  function TrimStartMatches(s: string, prefix: string): (r: string)
    ensures |r| <= |s| && r == s[|s| - |r|..]
    ensures prefix != [] ==> !StartsWith(r, prefix)
    decreases |s|
  {
    if prefix != [] && StartsWith(s, prefix) then TrimStartMatches(s[|prefix|..], prefix) else s
  }

  /** What `trim_start_matches` strips is whole copies of the prefix and nothing else. */
  lemma {:induction false} TrimStartMatchesCopies(s: string, prefix: string)
    ensures exists k: nat :: s == Repeat(prefix, k) + TrimStartMatches(s, prefix)
    decreases |s|
  {
    if prefix != [] && StartsWith(s, prefix) {
      var t := s[|prefix|..];
      assert s == prefix + t;
      TrimStartMatchesCopies(t, prefix);
      var k: nat :| t == Repeat(prefix, k) + TrimStartMatches(t, prefix);
      CopyBefore(prefix, k, TrimStartMatches(t, prefix));
    } else {
      assert s == Repeat(prefix, 0) + s;
    }
  }

  lemma CopyBefore(p: string, k: nat, r: string)
    ensures p + (Repeat(p, k) + r) == Repeat(p, k + 1) + r
  {
    assert Repeat(p, k + 1) == p + Repeat(p, k);
  }

  predicate IsDigit(c: char) {
    '0' <= c <= '9'
  }

  predicate AllDigits(s: string) {
    forall i :: 0 <= i < |s| ==> IsDigit(s[i])
  }

  function DigitChar(d: nat): (c: char)
    requires d < 10
    ensures IsDigit(c) && c as int - '0' as int == d
  {
    ('0' as int + d) as char
  }

  /** The decimal digits of a non-negative integer, most significant first:
      the first digit is '0' only when the integer is zero. */
  function Decimal(n: nat): (s: string)
    ensures s != [] && AllDigits(s)
    ensures s[0] == '0' <==> n == 0
  {
    if n < 10 then [DigitChar(n)] else Decimal(n / 10) + [DigitChar(n % 10)]
  }

  /** The value of a string of decimal digits: the inverse of `Decimal`. */
  function DecimalValue(s: string): nat
    requires AllDigits(s)
  {
    if s == [] then 0 else DecimalValue(s[..|s| - 1]) * 10 + (s[|s| - 1] as int - '0' as int)
  }

  lemma {:induction false} DecimalRoundTrip(n: nat)
    ensures DecimalValue(Decimal(n)) == n
  {
    if n >= 10 {
      DecimalRoundTrip(n / 10);
      var s := Decimal(n);
      assert s[..|s| - 1] == Decimal(n / 10);
    }
  }

  /** Distinct numbers print differently. */
  lemma DecimalInjective(m: nat, n: nat)
    requires Decimal(m) == Decimal(n)
    ensures m == n
  {
    DecimalRoundTrip(m);
    DecimalRoundTrip(n);
  }

  /** The index of the first '\n', or |s| when there is none. */
  function NewlineIndex(s: string): (i: nat)
    ensures i <= |s|
    ensures i < |s| ==> s[i] == '\n'
    ensures forall j :: 0 <= j < i ==> s[j] != '\n'
  {
    if s == [] || s[0] == '\n' then 0 else 1 + NewlineIndex(s[1..])
  }

  predicate EndsWithCr(line: string) {
    line != [] && line[|line| - 1] == '\r'
  }

  function StripCr(line: string): string {
    if EndsWithCr(line) then line[..|line| - 1] else line
  }

  /** Each line with one trailing '\r' dropped, if it has one. */
  function StripCrs(lines: seq<string>): (r: seq<string>)
    ensures |r| == |lines|
    ensures forall i :: 0 <= i < |lines| ==> r[i] == StripCr(lines[i])
  {
    seq(|lines|, i requires 0 <= i < |lines| => StripCr(lines[i]))
  }

  /** Trailing white space added to a text survives `trim_start` unless
      the text was all white space. */
  lemma {:induction false} TrimStartAppendSpace(p: string, c: char)
    requires IsWhitespace(c)
    ensures TrimStart(p + [c]) == if TrimStart(p) == [] then [] else TrimStart(p) + [c]
  {
    if p == [] {
      assert [c][1..] == [];
    } else {
      assert (p + [c])[0] == p[0];
      assert (p + [c])[1..] == p[1..] + [c];
      if IsWhitespace(p[0]) {
        TrimStartAppendSpace(p[1..], c);
      }
    }
  }

  /** Trailing white space after a text that does not end in white space is
      all that `trim_end` removes. */
  lemma {:induction false} TrimEndAfter(a: string, u: string)
    requires a != [] && !IsWhitespace(a[|a| - 1])
    ensures TrimEnd(a + u) == a + TrimEnd(u)
  {
    if u == [] {
      assert a + u == a;
    } else {
      var v := u[..|u| - 1];
      assert (a + u)[|a + u| - 1] == u[|u| - 1];
      assert (a + u)[..|a + u| - 1] == a + v;
      if IsWhitespace(u[|u| - 1]) {
        TrimEndAfter(a, v);
      }
    }
  }

  /** A '\r' is white space, so dropping one at the end does not change the trimmed text. */
  lemma TrimStripCr(line: string)
    ensures Trim(StripCr(line)) == Trim(line)
  {
    if EndsWithCr(line) {
      var p := line[..|line| - 1];
      assert line == p + ['\r'];
      TrimStartAppendSpace(p, '\r');
      var t := TrimStart(p);
      if t != [] {
        assert (t + ['\r'])[..|t|] == t;
      }
    }
  }


  /** The lines `BufRead::lines` yields for a file's contents: the text is
      cut at every '\n', one '\r' right before a '\n' is dropped with it,
      and a final '\n' does not start another line. */
  function SplitLines(s: string): (lines: seq<string>)
    ensures forall i :: 0 <= i < |lines| ==> '\n' !in lines[i]
    decreases |s|
  {
    if s == [] then []
    else
      var i := NewlineIndex(s);
      if i == |s| then [s] else [StripCr(s[..i])] + SplitLines(s[i + 1..])
  }

  /** Joining lines with a '\n' between each two: the text starts with the
      first line, and a '\n' follows it when more lines come. */
  function JoinLines(lines: seq<string>): (text: string)
    ensures lines != [] ==> StartsWith(text, lines[0])
    ensures |lines| > 1 ==> StartsWith(text, lines[0] + "\n")
  {
    if |lines| == 0 then ""
    else if |lines| == 1 then lines[0]
    else lines[0] + "\n" + JoinLines(lines[1..])
  }

  /** The text written for a list of lines: every line followed by one
      '\n', so it is never empty and always ends in a newline. */
  function Render(lines: seq<string>): (text: string)
    ensures text != [] && text[|text| - 1] == '\n'
  {
    JoinLines(lines) + "\n"
  }

  /** `n` lines that hold no '\n', joined, hold exactly `n - 1` of them. */
  lemma {:induction false} JoinLinesNewlines(lines: seq<string>)
    requires lines != []
    requires forall i :: 0 <= i < |lines| ==> '\n' !in lines[i]
    ensures multiset(JoinLines(lines))['\n'] == |lines| - 1
  {
    assert multiset(lines[0])['\n'] == 0;
    if |lines| > 1 {
      assert forall i :: 1 <= i < |lines| ==> lines[1..][i - 1] == lines[i];
      JoinLinesNewlines(lines[1..]);
      assert JoinLines(lines) == lines[0] + "\n" + JoinLines(lines[1..]);
    }
  }

  /** The written text holds one '\n' per line. */
  lemma RenderNewlines(lines: seq<string>)
    requires lines != []
    requires forall i :: 0 <= i < |lines| ==> '\n' !in lines[i]
    ensures multiset(Render(lines))['\n'] == |lines|
  {
    JoinLinesNewlines(lines);
  }

  /** Leading white space does not change what `trim_start` leaves. */
  lemma {:induction false} TrimStartSkipsWhitespace(ws: string, s: string)
    requires forall i :: 0 <= i < |ws| ==> IsWhitespace(ws[i])
    ensures TrimStart(ws + s) == TrimStart(s)
  {
    if ws == [] {
      assert ws + s == s;
    } else {
      assert (ws + s)[0] == ws[0];
      assert (ws + s)[1..] == ws[1..] + s;
      TrimStartSkipsWhitespace(ws[1..], s);
    }
  }

  lemma NewlineIndexAfter(a: string, b: string)
    requires '\n' !in a
    ensures NewlineIndex(a + "\n" + b) == |a|
  {
    var s := a + "\n" + b;
    assert s[|a|] == '\n';
    assert forall j :: 0 <= j < |a| ==> s[j] == a[j];
  }

  /** The first line of a text is cut at its first '\n'. */
  lemma SplitLinesFirst(a: string, rest: string)
    requires '\n' !in a
    ensures SplitLines(a + "\n" + rest) == [StripCr(a)] + SplitLines(rest)
  {
    var s := a + "\n" + rest;
    NewlineIndexAfter(a, rest);
    assert s[..|a|] == a;
    assert s[|a| + 1..] == rest;
  }

  lemma StripCrsFirst(lines: seq<string>)
    requires lines != []
    ensures StripCrs(lines) == [StripCr(lines[0])] + StripCrs(lines[1..])
  {
    assert StripCrs(lines)[1..] == StripCrs(lines[1..]);
  }

  lemma RenderFirst(lines: seq<string>)
    requires lines != []
    ensures Render(lines) == lines[0] + "\n" + (if |lines| == 1 then "" else Render(lines[1..]))
  {
  }

  /** Reading back what was rendered gives the lines, each with one
      trailing '\r' dropped (which `BufRead::lines` takes for part of a CRLF
      line ending), as long as no line holds a '\n'. */
  lemma {:induction false} SplitRenderStripsCr(lines: seq<string>)
    requires lines != []
    requires forall i :: 0 <= i < |lines| ==> '\n' !in lines[i]
    ensures SplitLines(Render(lines)) == StripCrs(lines)
  {
    RenderFirst(lines);
    StripCrsFirst(lines);
    if |lines| == 1 {
      SplitLinesFirst(lines[0], "");
    } else {
      SplitLinesFirst(lines[0], Render(lines[1..]));
      SplitRenderStripsCr(lines[1..]);
    }
  }

  /** Reading back what was rendered gives the same lines exactly when no
      line holds a '\n' or ends in a '\r'. */
  lemma SplitRender(lines: seq<string>)
    requires lines != []
    requires forall i :: 0 <= i < |lines| ==> '\n' !in lines[i] && !EndsWithCr(lines[i])
    ensures SplitLines(Render(lines)) == lines
  {
    SplitRenderStripsCr(lines);
  }

  /** Rust's `Ord` for `String`: lexicographic on code points (the same
      order as on the UTF-8 bytes), a proper prefix first. */
  predicate LexLe(a: string, b: string) {
    a == [] || (b != [] && (a[0] < b[0] || (a[0] == b[0] && LexLe(a[1..], b[1..]))))
  }

  lemma {:induction false} LexLeTotal(a: string, b: string)
    ensures LexLe(a, b) || LexLe(b, a)
  {
    if a != [] && b != [] && a[0] == b[0] {
      LexLeTotal(a[1..], b[1..]);
    }
  }

  lemma {:induction false} LexLeAntisymmetric(a: string, b: string)
    requires LexLe(a, b) && LexLe(b, a)
    ensures a == b
  {
    if a != [] && b != [] {
      LexLeAntisymmetric(a[1..], b[1..]);
      assert a == [a[0]] + a[1..] && b == [b[0]] + b[1..];
    }
  }

  lemma {:induction false} LexLeTransitive(a: string, b: string, c: string)
    requires LexLe(a, b) && LexLe(b, c)
    ensures LexLe(a, c)
  {
    if a != [] && b != [] && c != [] && a[0] == b[0] && b[0] == c[0] {
      LexLeTransitive(a[1..], b[1..], c[1..]);
    }
  }
}
