/** The blank-page test of the trimmer: a page body counts as empty when, after
    removing `&nbsp;` entities, then `<br>` tags, then every remaining tag, and
    finally trimming white space, nothing is left. Each pass is a left-to-right,
    non-overlapping global replacement by the empty string, as JavaScript's
    `String.prototype.replace` performs it with a `g` regular expression. */
module HtmlText {

  /** The characters that JavaScript's `trim()` and the regular-expression class
      `\s` treat as white space: WhiteSpace (tab, vertical tab, form feed, space,
      no-break space, byte order mark and the Unicode space separators) and
      LineTerminator (line feed, carriage return, U+2028, U+2029). */
  predicate IsWhitespace(c: char) {
    || c == '\t' || c == '\n' || c == '\U{000B}' || c == '\U{000C}' || c == '\r' || c == ' '
    || c == '\U{00A0}' || c == '\U{1680}' || ('\U{2000}' <= c <= '\U{200A}')
    || c == '\U{2028}' || c == '\U{2029}' || c == '\U{202F}' || c == '\U{205F}'
    || c == '\U{3000}' || c == '\U{FEFF}'
  }

  predicate AllWhitespace(s: string) {
    forall i :: 0 <= i < |s| ==> IsWhitespace(s[i])
  }

  /** Removes trailing white space. */
  function TrimEnd(s: string): (r: string)
    ensures |r| <= |s| && r == s[..|r|]
    ensures forall i :: |r| <= i < |s| ==> IsWhitespace(s[i])
    ensures r == [] || !IsWhitespace(r[|r| - 1])
  {
    if s == [] || !IsWhitespace(s[|s| - 1]) then s else TrimEnd(s[..|s| - 1])
  }

  /** `String.prototype.trim`: the slice of `s` left once the leading white
      space (`LeadingWhitespace(s)` characters) and the trailing white space are
      cut off. It is empty exactly when the whole string is white space, and
      otherwise begins and ends with a character that is not. */
  function Trim(s: string): (r: string)
    ensures var a := LeadingWhitespace(s);
      && a + |r| <= |s| && r == s[a..a + |r|]
      && AllWhitespace(s[..a]) && AllWhitespace(s[a + |r|..])
    ensures r == [] <==> AllWhitespace(s)
    ensures r != [] ==> !IsWhitespace(r[0]) && !IsWhitespace(r[|r| - 1])
  {
    var a := LeadingWhitespace(s);
    var r := TrimEnd(s[a..]);
    assert a < |s| ==> s[a..][0] == s[a];
    assert r != [] ==> r[0] == s[a];
    assert AllWhitespace(s[a + |r|..]) by {
      forall i | a + |r| <= i < |s| ensures IsWhitespace(s[i]) {
        assert s[i] == s[a..][i - a];
      }
    }
    r
  }

  /** ASCII case folding, the only folding a non-Unicode `i` regular expression
      applies to the letters of the patterns below. */
  function LowerAscii(c: char): char {
    if 'A' <= c <= 'Z' then (c as int + 32) as char else c
  }

  /** `s` begins with `lit`, letters compared without regard to case. */
  predicate StartsWithIgnoreCase(s: string, lit: string) {
    |lit| <= |s| && forall i :: 0 <= i < |lit| ==> LowerAscii(s[i]) == LowerAscii(lit[i])
  }

  const Nbsp: string := "&nbsp;"

  /** `s.replace(/&nbsp;/gi, "")`. */
  function StripNbsp(s: string): (r: string)
    ensures |r| <= |s|
  {
    if s == [] then []
    else if StartsWithIgnoreCase(s, Nbsp) then StripNbsp(s[|Nbsp|..])
    else [s[0]] + StripNbsp(s[1..])
  }

  /** Number of white-space characters at the start of `s`: what `trim()` cuts
      at the front, and what the greedy `\s*` consumes. */
  function LeadingWhitespace(s: string): (n: nat)
    ensures n <= |s|
    ensures forall i :: 0 <= i < n ==> IsWhitespace(s[i])
    ensures n < |s| ==> !IsWhitespace(s[n])
  {
    if s != [] && IsWhitespace(s[0]) then 1 + LeadingWhitespace(s[1..]) else 0
  }

  /** `s[..n]` is a whole match of `/<br\s*\/?>/i`: `<`, `b` or `B`, `r` or `R`,
      white space, an optional `/`, then `>`. */
  predicate BrTagAt(s: string, n: nat) {
    && 4 <= n <= |s| && s[0] == '<' && LowerAscii(s[1]) == 'b' && LowerAscii(s[2]) == 'r'
    && s[n - 1] == '>'
    && ((forall i :: 3 <= i < n - 1 ==> IsWhitespace(s[i]))
        || (5 <= n && s[n - 2] == '/' && forall i :: 3 <= i < n - 2 ==> IsWhitespace(s[i])))
  }

  /** Length of the match of `/<br\s*\/?>/i` at the start of `s`, 0 when there is
      none. Because neither `/` nor `>` is white space, the greedy `\s*` never
      has to give characters back, so reading left to right decides the match;
      and a match, when there is one, is the only one. */
  function BrMatch(s: string): (n: nat)
    ensures n <= |s|
    ensures n > 0 ==> BrTagAt(s, n)
    ensures forall m :: BrTagAt(s, m) ==> n == m
  {
    if |s| < 3 || s[0] != '<' || LowerAscii(s[1]) != 'b' || LowerAscii(s[2]) != 'r' then 0
    else
      var w := LeadingWhitespace(s[3..]);
      var k := 3 + w;
      var k' := if k < |s| && s[k] == '/' then k + 1 else k;
      assert forall i :: 3 <= i < k ==> IsWhitespace(s[i]) by {
        forall i | 3 <= i < k ensures IsWhitespace(s[i]) { assert s[i] == s[3..][i - 3]; }
      }
      assert k < |s| ==> !IsWhitespace(s[k]) by {
        if k < |s| { assert s[k] == s[3..][w]; }
      }
      if k' < |s| && s[k'] == '>' then k' + 1 else 0
  }

  /** `s.replace(/<br\s*\/?>/gi, "")`. */
  function StripBr(s: string): (r: string)
    ensures |r| <= |s|
  {
    if s == [] then []
    else
      var n := BrMatch(s);
      if n > 0 then StripBr(s[n..]) else [s[0]] + StripBr(s[1..])
  }

  /** Text without `&` passes the entity pass unchanged. */
  lemma {:induction false} StripNbspPlain(s: string)
    requires forall i :: 0 <= i < |s| ==> s[i] != '&'
    ensures StripNbsp(s) == s
  {
    if s != [] {
      assert LowerAscii(s[0]) != LowerAscii(Nbsp[0]);
      StripNbspPlain(s[1..]);
    }
  }

  /** Text without `<` passes the line-break pass unchanged. */
  lemma {:induction false} StripBrPlain(s: string)
    requires forall i :: 0 <= i < |s| ==> s[i] != '<'
    ensures StripBr(s) == s
  {
    if s != [] {
      StripBrPlain(s[1..]);
    }
  }

  /** Index of the first `c` in `s`, or -1. */
  function IndexOf(s: string, c: char): (r: int)
    ensures -1 <= r < |s|
    ensures r >= 0 ==> s[r] == c
    ensures forall i :: 0 <= i < |s| && (r < 0 || i < r) ==> s[i] != c
  {
    if s == [] then -1
    else if s[0] == c then 0
    else var r := IndexOf(s[1..], c); if r < 0 then -1 else r + 1
  }

  /** `s.replace(/<[^>]*>/g, "")`: every `<` that has a `>` after it is removed
      together with everything up to the first such `>`. */
  function StripTags(s: string): (r: string)
    ensures |r| <= |s|
  {
    if s == [] then []
    else if s[0] == '<' && IndexOf(s[1..], '>') >= 0 then StripTags(s[IndexOf(s[1..], '>') + 2..])
    else [s[0]] + StripTags(s[1..])
  }

  /** Text without `<` passes the tag pass unchanged. */
  lemma {:induction false} StripTagsPlain(s: string)
    requires forall i :: 0 <= i < |s| ==> s[i] != '<'
    ensures StripTags(s) == s
  {
    if s != [] {
      StripTagsPlain(s[1..]);
    }
  }

  /** Every character the tag pass leaves comes from its input. */
  lemma StripTagsFromInput(s: string)
    ensures forall j :: 0 <= j < |StripTags(s)| ==> StripTags(s)[j] in s
  {
    var r := StripTags(s);
    StripTagsDeletes(s);
    forall j | 0 <= j < |r| ensures r[j] in s {
      var m := SubsequenceWitness(r, s, j);
    }
  }

  /** After the tag pass no tag is left: no `<` is followed, anywhere later, by a `>`. */
  lemma {:induction false} StripTagsLeavesNoTag(s: string)
    ensures var r := StripTags(s); forall i, j :: 0 <= i < j < |r| && r[i] == '<' ==> r[j] != '>'
  {
    if s == [] {
    } else if s[0] == '<' && IndexOf(s[1..], '>') >= 0 {
      StripTagsLeavesNoTag(s[IndexOf(s[1..], '>') + 2..]);
      assert StripTags(s) == StripTags(s[IndexOf(s[1..], '>') + 2..]);
    } else {
      var tail := StripTags(s[1..]);
      StripTagsLeavesNoTag(s[1..]);
      if s[0] == '<' {
        // no `>` anywhere after this `<`, hence none in what is kept after it
        StripTagsDeletes(s[1..]);
        forall j | 0 <= j < |tail| ensures tail[j] != '>' {
          var m := SubsequenceWitness(tail, s[1..], j);
        }
      }
      var r := StripTags(s);
      assert r == [s[0]] + tail;
      forall i, j | 0 <= i < j < |r| && r[i] == '<' ensures r[j] != '>' {
        assert r[j] == tail[j - 1];
        if i > 0 { assert tail[i - 1] == '<'; }
      }
    }
  }

  /** `r` is obtained from `s` by deleting characters (greedy matching decides
      this exactly). */
  predicate IsSubsequence(r: string, s: string)
    decreases |s|
  {
    if r == [] then true
    else if s == [] then false
    else if r[0] == s[0] then IsSubsequence(r[1..], s[1..])
    else IsSubsequence(r, s[1..])
  }

  /** Deleting more from the front keeps a subsequence a subsequence. */
  lemma {:induction false} SubsequenceConsRight(r: string, s: string)
    requires s != [] && IsSubsequence(r, s[1..])
    ensures IsSubsequence(r, s)
    decreases |s|, 0
  {
    if r != [] && r[0] == s[0] {
      SubsequenceDropFirst(r, s[1..]);
    }
  }

  lemma {:induction false} SubsequenceDropFirst(r: string, s: string)
    requires r != [] && IsSubsequence(r, s)
    ensures IsSubsequence(r[1..], s)
    decreases |s|, 1
  {
    if r[0] == s[0] {
      SubsequenceConsRight(r[1..], s);
    } else {
      SubsequenceDropFirst(r, s[1..]);
      SubsequenceConsRight(r[1..], s);
    }
  }

  /** A subsequence of a suffix is a subsequence of the whole. */
  lemma {:induction false} SubsequenceOfSuffix(r: string, s: string, m: nat)
    requires m <= |s| && IsSubsequence(r, s[m..])
    ensures IsSubsequence(r, s)
    decreases m
  {
    if m > 0 {
      assert s[1..][m - 1..] == s[m..];
      SubsequenceOfSuffix(r, s[1..], m - 1);
      SubsequenceConsRight(r, s);
    }
  }

  /** Where character `j` of a subsequence sits in the string. */
  lemma {:induction false} SubsequenceWitness(r: string, s: string, j: nat) returns (m: nat)
    requires IsSubsequence(r, s) && j < |r|
    ensures m < |s| && s[m] == r[j]
    decreases |s|
  {
    if r[0] == s[0] {
      if j == 0 {
        m := 0;
      } else {
        var m' := SubsequenceWitness(r[1..], s[1..], j - 1);
        m := m' + 1;
      }
    } else {
      var m' := SubsequenceWitness(r, s[1..], j);
      m := m' + 1;
    }
  }

  /** Keeping the first character and a subsequence of the rest. */
  lemma KeepFirst(s: string, r: string)
    requires s != [] && IsSubsequence(r, s[1..])
    ensures IsSubsequence([s[0]] + r, s)
  {
    assert ([s[0]] + r)[1..] == r;
  }

  /** The entity pass only deletes characters. */
  lemma {:induction false} StripNbspDeletes(s: string)
    ensures IsSubsequence(StripNbsp(s), s)
    decreases |s|
  {
    if s == [] {
    } else if StartsWithIgnoreCase(s, Nbsp) {
      StripNbspDeletes(s[|Nbsp|..]);
      SubsequenceOfSuffix(StripNbsp(s), s, |Nbsp|);
    } else {
      StripNbspDeletes(s[1..]);
      KeepFirst(s, StripNbsp(s[1..]));
    }
  }

  /** The line-break pass only deletes characters. */
  lemma {:induction false} StripBrDeletes(s: string)
    ensures IsSubsequence(StripBr(s), s)
    decreases |s|
  {
    if s == [] {
    } else if BrMatch(s) > 0 {
      StripBrDeletes(s[BrMatch(s)..]);
      SubsequenceOfSuffix(StripBr(s), s, BrMatch(s));
    } else {
      StripBrDeletes(s[1..]);
      KeepFirst(s, StripBr(s[1..]));
    }
  }

  /** The tag pass only deletes characters. */
  lemma {:induction false} StripTagsDeletes(s: string)
    ensures IsSubsequence(StripTags(s), s)
    decreases |s|
  {
    if s == [] {
    } else if s[0] == '<' && IndexOf(s[1..], '>') >= 0 {
      var m := IndexOf(s[1..], '>') + 2;
      StripTagsDeletes(s[m..]);
      SubsequenceOfSuffix(StripTags(s), s, m);
    } else {
      StripTagsDeletes(s[1..]);
      KeepFirst(s, StripTags(s[1..]));
    }
  }

  /** An entity, in any letter case, after text without `&` is removed and
      nothing else changes. */
  lemma {:induction false} StripNbspRemovesEntity(x: string, e: string, y: string)
    requires forall i :: 0 <= i < |x| ==> x[i] != '&'
    requires |e| == |Nbsp| && StartsWithIgnoreCase(e, Nbsp)
    ensures StripNbsp(x + e + y) == StripNbsp(x) + StripNbsp(y)
  {
    var s := x + e + y;
    if x == [] {
      assert s == e + y;
      assert StartsWithIgnoreCase(s, Nbsp) by {
        forall i | 0 <= i < |Nbsp| ensures LowerAscii(s[i]) == LowerAscii(Nbsp[i]) {
          assert s[i] == e[i];
        }
      }
      assert s[|Nbsp|..] == y;
    } else {
      assert s[0] == x[0] && LowerAscii(x[0]) != LowerAscii(Nbsp[0]);
      assert !StartsWithIgnoreCase(s, Nbsp);
      assert s[1..] == x[1..] + e + y;
      StripNbspRemovesEntity(x[1..], e, y);
    }
  }

  /** A self-closing line break after text without `<` is removed and nothing
      else changes. */
  lemma {:induction false} StripBrRemovesBreak(x: string, y: string)
    requires forall i :: 0 <= i < |x| ==> x[i] != '<'
    ensures StripBr(x + "<br/>" + y) == StripBr(x) + StripBr(y)
  {
    if x == [] {
      var s := "<br/>" + y;
      assert x + "<br/>" + y == s;
      assert BrTagAt(s, 5) by {
        assert s[..5] == "<br/>";
      }
      assert s[5..] == y;
    } else {
      assert (x + "<br/>" + y)[1..] == x[1..] + "<br/>" + y;
      StripBrRemovesBreak(x[1..], y);
    }
  }

  /** A tag after text without `<` is removed whole, whatever it holds short of
      a `>`, and nothing else changes. */
  lemma {:induction false} StripTagsRemovesTag(x: string, m: string, y: string)
    requires forall i :: 0 <= i < |x| ==> x[i] != '<'
    requires forall i :: 0 <= i < |m| ==> m[i] != '>'
    ensures StripTags(x + "<" + m + ">" + y) == StripTags(x) + StripTags(y)
  {
    if x == [] {
      var s := "<" + m + ">" + y;
      assert x + "<" + m + ">" + y == s;
      assert s[1..][|m|] == '>';
      assert IndexOf(s[1..], '>') == |m|;
      assert s[|m| + 2..] == y;
    } else {
      assert (x + "<" + m + ">" + y)[1..] == x[1..] + "<" + m + ">" + y;
      StripTagsRemovesTag(x[1..], m, y);
    }
  }

  /** What the three replacement passes leave of a page body:
      `raw.replace(/&nbsp;/gi, "").replace(/<br\s*\/?>/gi, "").replace(/<[^>]*>/g, "")`. */
  function Stripped(raw: string): string {
    StripTags(StripBr(StripNbsp(raw)))
  }

  /** A page body with no visible text: what the passes leave is white space
      only, which is exactly when its `trim()` has length 0 (see `BlankIffTrimEmpty`). */
  predicate IsBlank(raw: string) {
    AllWhitespace(Stripped(raw))
  }

  /** Blankness is the source's test `cleaned.length === 0` with
      `cleaned = Stripped(raw).trim()`. */
  lemma BlankIffTrimEmpty(raw: string)
    ensures IsBlank(raw) <==> |Trim(Stripped(raw))| == 0
  {
  }

  /** For plain text (no markup, no entity) blankness is exactly "white space only". */
  lemma PlainTextBlank(s: string)
    requires forall i :: 0 <= i < |s| ==> s[i] != '<' && s[i] != '&'
    ensures IsBlank(s) <==> AllWhitespace(s)
  {
    StripNbspPlain(s);
    StripBrPlain(s);
    StripTagsPlain(s);
  }

  /** Markup alone is blank: a line break. */
  lemma LineBreakIsBlank()
    ensures IsBlank("<BR/>")
  {
    assert StripNbsp("<BR/>") == "<BR/>";
    assert BrMatch("<BR/>") == 5;
    assert StripBr("<BR/>") == "";
  }

  /** A non-breaking-space entity, in any letter case, is blank. */
  lemma NbspIsBlank()
    ensures IsBlank("&NbSp;")
  {
    assert StartsWithIgnoreCase("&NbSp;", Nbsp);
    assert StripNbsp("&NbSp;") == "";
  }

  /** A tag around text does not make it blank. */
  lemma TaggedTextIsNotBlank()
    ensures !IsBlank("<i>x</i>")
  {
    NoEntityInItalicX();
    StripBrKeepsItalicX();
    StripTagsOfItalicX();
    assert !IsWhitespace("x"[0]);
  }

  lemma NoEntityInItalicX()
    ensures StripNbsp("<i>x</i>") == "<i>x</i>"
  {
    StripNbspPlain("<i>x</i>");
  }

  lemma StripBrKeepsItalicX()
    ensures StripBr("<i>x</i>") == "<i>x</i>"
  {
    assert BrMatch("</i>") == 0;
    assert StripBr("</i>") == "</i>";
    assert StripBr("x</i>") == "x</i>";
    assert StripBr(">x</i>") == ">x</i>";
    assert StripBr("i>x</i>") == "i>x</i>";
    assert BrMatch("<i>x</i>") == 0;
  }

  lemma StripTagsOfItalicX()
    ensures StripTags("<i>x</i>") == "x"
  {
    assert IndexOf("/i>", '>') == 2;
    assert StripTags("</i>") == "";
    assert StripTags("x</i>") == "x";
    assert IndexOf("i>x</i>", '>') == 1;
    assert "<i>x</i>"[3..] == "x</i>";
  }
}
