/**
 * `clean_text`: drop every character outside the whitelist (ASCII letters,
 * ASCII digits, whitespace, `.` and `,`), replace every run of whitespace by
 * one space, and strip both ends.
 */
module TextClean {

  /** Python's whitespace (`str.isspace`, and `\s` in a `str` pattern): the
      ASCII characters 9-13 and 28-32, and beyond ASCII the code points in
      `UnicodeSpaceRanges`. */
  predicate IsSpace(c: char) {
    if c < '\U{80}' then '\t' <= c <= '\r' || '\U{1C}' <= c <= ' '
    else InRanges(c, UnicodeSpaceRanges)
  }

  /** The Unicode spaces and line and paragraph separators, as ranges. */
  const UnicodeSpaceRanges: seq<(char, char)> := [
    ('\U{85}', '\U{85}'), ('\U{A0}', '\U{A0}'), ('\U{1680}', '\U{1680}'),
    ('\U{2000}', '\U{200A}'), ('\U{2028}', '\U{2029}'), ('\U{202F}', '\U{202F}'),
    ('\U{205F}', '\U{205F}'), ('\U{3000}', '\U{3000}')
  ]

  predicate InRanges(c: char, ranges: seq<(char, char)>) {
    ranges != [] && (ranges[0].0 <= c <= ranges[0].1 || InRanges(c, ranges[1..]))
  }

  predicate IsAsciiAlnum(c: char) {
    'a' <= c <= 'z' || 'A' <= c <= 'Z' || '0' <= c <= '9'
  }

  /** The visible characters the first substitution keeps. */
  predicate IsWhitelisted(c: char) {
    IsAsciiAlnum(c) || c == '.' || c == ','
  }

  /** The characters `[a-zA-Z0-9\s.,]` matches. */
  predicate IsKept(c: char) {
    IsWhitelisted(c) || IsSpace(c)
  }

  /** The alphabet of a cleaned text. */
  predicate IsCleanChar(c: char) {
    IsWhitelisted(c) || c == ' '
  }

  predicate AllKept(s: string) {
    forall i :: 0 <= i < |s| ==> IsKept(s[i])
  }

  /** `re.sub(r"[^a-zA-Z0-9\s.,]", "", s)`. */
  function Filter(s: string): (r: string)
    ensures AllKept(r)
    ensures |r| <= |s|
  {
    if s == [] then []
    else (if IsKept(s[0]) then [s[0]] else []) + Filter(s[1..])
  }

  /** The rest of `s` after its leading whitespace. */
  function SkipSpaces(s: string): (r: string)
    ensures |r| <= |s| && r == s[|s| - |r|..]
    ensures r == [] || !IsSpace(r[0])
    ensures forall i :: 0 <= i < |s| - |r| ==> IsSpace(s[i])
  {
    if s != [] && IsSpace(s[0]) then SkipSpaces(s[1..]) else s
  }

  /** `re.sub(r"\s+", " ", s)`: every maximal run of whitespace becomes a
      single space. */
  function Collapse(s: string): string
    decreases |s|
  {
    if s == [] then []
    else if IsSpace(s[0]) then " " + Collapse(SkipSpaces(s[1..]))
    else [s[0]] + Collapse(s[1..])
  }

  /** The rest of `s` after its trailing whitespace. */
  function TrimEnd(s: string): (r: string)
    ensures r <= s
    ensures r == [] || !IsSpace(r[|r| - 1])
    ensures forall i :: |r| <= i < |s| ==> IsSpace(s[i])
  {
    if s != [] && IsSpace(s[|s| - 1]) then TrimEnd(s[..|s| - 1]) else s
  }

  /** `str.strip()`: remove leading and trailing whitespace. */
  function Strip(s: string): string {
    TrimEnd(SkipSpaces(s))
  }

  /** `clean_text`. */
  function CleanText(text: string): string {
    Strip(Collapse(Filter(text)))
  }

  /** Clean characters only, and no two spaces in a row. */
  predicate IsSpaced(s: string) {
    && (forall i :: 0 <= i < |s| ==> IsCleanChar(s[i]))
    && (forall i :: 0 <= i < |s| - 1 ==> !(s[i] == ' ' && s[i + 1] == ' '))
  }

  /** The shape every cleaned text has: only clean characters, no two spaces
      in a row, and no space at either end. */
  predicate IsNormalized(s: string) {
    IsSpaced(s) && (s != [] ==> s[0] != ' ' && s[|s| - 1] != ' ')
  }

  /** The non-whitespace characters of `s`, in order. */
  function Visible(s: string): string {
    if s == [] then []
    else (if IsSpace(s[0]) then [] else [s[0]]) + Visible(s[1..])
  }

  /** The whitelisted characters of `s`, in order. */
  function Whitelisted(s: string): string {
    if s == [] then []
    else (if IsWhitelisted(s[0]) then [s[0]] else []) + Whitelisted(s[1..])
  }

  /** No whitespace in `s`. */
  predicate NoSpace(s: string) {
    forall i :: 0 <= i < |s| ==> !IsSpace(s[i])
  }

  predicate EndsInSpace(s: string) {
    s != [] && IsSpace(s[|s| - 1])
  }

  /** The space collapsing leaves at the end of `s`, if any. */
  function Tail(s: string): string {
    if EndsInSpace(s) then " " else ""
  }

  /** The longest prefix of `s` without whitespace. */
  function TakeWord(s: string): (w: string)
    ensures w <= s && NoSpace(w)
    ensures |w| == |s| || IsSpace(s[|w|])
    ensures s != [] && !IsSpace(s[0]) ==> w != []
  {
    if s == [] || IsSpace(s[0]) then [] else [s[0]] + TakeWord(s[1..])
  }

  /** The words of `s`: its maximal runs of non-whitespace characters, in
      order. */
  function Words(s: string): seq<string>
    decreases |s|
  {
    var t := SkipSpaces(s);
    if t == [] then []
    else
      var w := TakeWord(t);
      [w] + Words(t[|w|..])
  }

  /** The words joined by single spaces (`" ".join(ws)`). */
  function JoinWords(ws: seq<string>): string {
    if ws == [] then []
    else if |ws| == 1 then ws[0]
    else ws[0] + " " + JoinWords(ws[1..])
  }

  // ---------------------------------------------------------------------
  // Character classes

  /** The space is whitespace; letters, digits, `.` and `,` are not. */
  lemma WhitelistedNotSpace(c: char)
    ensures IsSpace(' ')
    ensures IsWhitelisted(c) ==> !IsSpace(c)
  {
  }

  // ---------------------------------------------------------------------
  // Slices and concatenation

  lemma AllKeptSuffix(s: string, k: nat)
    requires AllKept(s) && k <= |s|
    ensures AllKept(s[k..])
  {
    forall i | 0 <= i < |s| - k ensures IsKept(s[k..][i]) { assert s[k..][i] == s[k + i]; }
  }

  lemma SpacedSlice(s: string, lo: nat, hi: nat)
    requires IsSpaced(s) && lo <= hi <= |s|
    ensures IsSpaced(s[lo..hi])
  {
    var t := s[lo..hi];
    forall i | 0 <= i < |t| ensures IsCleanChar(t[i]) { assert t[i] == s[lo + i]; }
    forall i | 0 <= i < |t| - 1 ensures !(t[i] == ' ' && t[i + 1] == ' ') {
      assert t[i] == s[lo + i] && t[i + 1] == s[lo + i + 1];
    }
  }

  /** Putting one more character in front keeps the spacing rule when it
      does not make a second space. */
  lemma SpacedCons(c: char, r: string)
    requires IsCleanChar(c) && IsSpaced(r)
    requires c == ' ' ==> r == [] || r[0] != ' '
    ensures IsSpaced([c] + r)
  {
    var t := [c] + r;
    forall i | 0 <= i < |t| ensures IsCleanChar(t[i]) {
      if i > 0 { assert t[i] == r[i - 1]; }
    }
    forall i | 0 <= i < |t| - 1 ensures !(t[i] == ' ' && t[i + 1] == ' ') {
      if i > 0 { assert t[i] == r[i - 1] && t[i + 1] == r[i]; }
    }
  }

  lemma {:induction false} FilterAppend(a: string, b: string)
    ensures Filter(a + b) == Filter(a) + Filter(b)
  {
    if a == [] {
      assert a + b == b;
    } else {
      var h := if IsKept(a[0]) then [a[0]] else [];
      assert (a + b)[0] == a[0];
      assert (a + b)[1..] == a[1..] + b;
      assert Filter(a + b) == h + Filter(a[1..] + b);
      FilterAppend(a[1..], b);
      assert Filter(a) == h + Filter(a[1..]);
      assert h + (Filter(a[1..]) + Filter(b)) == (h + Filter(a[1..])) + Filter(b);
    }
  }

  // ---------------------------------------------------------------------
  // Collapse

  /** Collapsing starts with a space exactly when the input starts with
      whitespace. */
  lemma CollapseHead(s: string)
    ensures Collapse(s) != [] <==> s != []
    ensures s != [] ==> (Collapse(s)[0] == ' ' <==> IsSpace(s[0]))
  {
    WhitelistedNotSpace(' ');
  }

  /** After collapsing, no character is whitespace other than the space and
      no two spaces are adjacent. */
  lemma {:induction false} CollapseSpaced(s: string)
    requires AllKept(s)
    ensures IsSpaced(Collapse(s))
    decreases |s|
  {
    WhitelistedNotSpace(' ');
    if s == [] {
    } else if IsSpace(s[0]) {
      var t := SkipSpaces(s[1..]);
      assert IsSpaced(Collapse(t)) by {
        AllKeptSuffix(s, |s| - |t|);
        assert t == s[|s| - |t|..];
        CollapseSpaced(t);
      }
      assert Collapse(t) == [] || Collapse(t)[0] != ' ' by { CollapseHead(t); }
      assert Collapse(s) == [' '] + Collapse(t);
      SpacedCons(' ', Collapse(t));
    } else {
      assert IsSpaced(Collapse(s[1..])) by {
        AllKeptSuffix(s, 1);
        CollapseSpaced(s[1..]);
      }
      assert IsCleanChar(s[0]) && s[0] != ' ' by { assert IsKept(s[0]); }
      assert Collapse(s) == [s[0]] + Collapse(s[1..]);
      SpacedCons(s[0], Collapse(s[1..]));
    }
  }

  /** A spaced text collapses to itself. */
  lemma {:induction false} CollapseKeepsSpaced(s: string)
    requires IsSpaced(s)
    ensures Collapse(s) == s
  {
    if s != [] {
      assert Collapse(s[1..]) == s[1..] by {
        SpacedSlice(s, 1, |s|);
        CollapseKeepsSpaced(s[1..]);
      }
      WhitelistedNotSpace(s[0]);
      if IsSpace(s[0]) {
        assert SkipSpaces(s[1..]) == s[1..] by {
          assert s[0] == ' ';
          if |s| > 1 {
            assert s[1] != ' ' && IsCleanChar(s[1]);
            WhitelistedNotSpace(s[1]);
          }
        }
        assert Collapse(s) == [' '] + s[1..];
      } else {
        assert Collapse(s) == [s[0]] + s[1..];
      }
    }
  }

  /** Non-empty words without whitespace. */
  predicate IsWordList(ws: seq<string>) {
    forall i :: 0 <= i < |ws| ==> ws[i] != [] && NoSpace(ws[i])
  }

  lemma WordListCons(w: string, ws: seq<string>)
    requires w != [] && NoSpace(w) && IsWordList(ws)
    ensures IsWordList([w] + ws)
  {
    forall i | 0 < i < |ws| + 1 ensures ([w] + ws)[i] == ws[i - 1] { }
  }

  /** Every word is non-empty and free of whitespace. */
  lemma {:induction false} WordsShape(s: string)
    ensures IsWordList(Words(s))
    decreases |s|
  {
    var t := SkipSpaces(s);
    if t != [] {
      var w := TakeWord(t);
      WordsShape(t[|w|..]);
      WordListCons(w, Words(t[|w|..]));
    }
  }

  /** A word passes through collapsing unchanged. */
  lemma {:induction false} CollapseWord(w: string, r: string)
    requires NoSpace(w)
    ensures Collapse(w + r) == w + Collapse(r)
  {
    if w != [] {
      assert (w + r)[0] == w[0] && (w + r)[1..] == w[1..] + r;
      assert !IsSpace(w[0]);
      assert Collapse(w + r) == [w[0]] + Collapse(w[1..] + r);
      assert NoSpace(w[1..]) by {
        forall i | 0 <= i < |w| - 1 ensures !IsSpace(w[1..][i]) { assert w[1..][i] == w[i + 1]; }
      }
      CollapseWord(w[1..], r);
      assert [w[0]] + (w[1..] + Collapse(r)) == w + Collapse(r);
    } else {
      assert w + r == r && w + Collapse(r) == Collapse(r);
    }
  }

  /** Leading whitespace does not change the words. */
  lemma {:induction false} WordsSkipSpaces(s: string)
    ensures Words(SkipSpaces(s)) == Words(s)
  {
    var t := SkipSpaces(s);
    assert SkipSpaces(t) == t;
  }

  lemma {:induction false} Regroup(a: string, b: string, c: string, d: string)
    ensures a + (b + (c + d)) == a + b + c + d
  {
  }

  /** A non-empty suffix ends as the whole text does. */
  lemma {:induction false} SuffixEnds(s: string, k: nat)
    requires k < |s|
    ensures EndsInSpace(s[k..]) == EndsInSpace(s)
  {
    assert s[k..][|s| - k - 1] == s[|s| - 1];
  }

  /** One word off the front of a text that starts with one. */
  lemma {:induction false} WordStep(t: string)
    requires t != [] && !IsSpace(t[0])
    ensures var w := TakeWord(t);
      && t == w + t[|w|..]
      && Words(t) == [w] + Words(t[|w|..])
      && Collapse(t) == w + Collapse(t[|w|..])
      && (t[|w|..] == [] ==> !EndsInSpace(t))
  {
    var w := TakeWord(t);
    var r := t[|w|..];
    assert t == w + r;
    assert SkipSpaces(t) == t;
    CollapseWord(w, r);
    if r == [] {
      assert t[|t| - 1] == w[|w| - 1];
    }
  }

  /** One run of whitespace off the front of a text that starts with one. */
  lemma {:induction false} RunStep(r: string)
    requires r != [] && IsSpace(r[0])
    ensures var r' := SkipSpaces(r);
      && |r'| < |r|
      && Collapse(r) == " " + Collapse(r')
      && Words(r) == Words(r')
      && (r' == [] ==> EndsInSpace(r))
      && (r' != [] ==> EndsInSpace(r') == EndsInSpace(r))
  {
    var r' := SkipSpaces(r);
    assert SkipSpaces(r[1..]) == r';
    WordsSkipSpaces(r);
    if r' == [] {
      assert IsSpace(r[|r| - 1]);
    } else {
      SuffixEnds(r, |r| - |r'|);
    }
  }

  /** Collapsing a text that does not start with whitespace gives its words
      joined by single spaces, and one more space if the text ends in
      whitespace. */
  lemma {:induction false} CollapseWords(t: string)
    requires t == [] || !IsSpace(t[0])
    ensures Collapse(t) == JoinWords(Words(t)) + Tail(t)
    decreases |t|
  {
    if t != [] {
      var r := t[|TakeWord(t)|..];
      if r == [] {
        CollapseOneWord(t);
      } else {
        assert IsSpace(r[0]);
        var r' := SkipSpaces(r);
        if r' == [] {
          CollapseTrailing(t);
        } else {
          assert |r'| < |t|;
          CollapseWords(r');
          CollapseMore(t);
        }
      }
    }
  }

  /** A single word, with nothing after it. */
  lemma {:induction false} CollapseOneWord(t: string)
    requires t != [] && !IsSpace(t[0]) && t[|TakeWord(t)|..] == []
    ensures Collapse(t) == JoinWords(Words(t)) + Tail(t)
  {
    var w := TakeWord(t);
    WordStep(t);
    assert Words(t[|w|..]) == [] && Collapse(t[|w|..]) == [];
    assert Collapse(t) == w + [];
  }

  /** A single word followed by whitespace only. */
  lemma {:induction false} CollapseTrailing(t: string)
    requires t != [] && !IsSpace(t[0])
    requires var r := t[|TakeWord(t)|..]; r != [] && IsSpace(r[0]) && SkipSpaces(r) == []
    ensures Collapse(t) == JoinWords(Words(t)) + Tail(t)
  {
    var w := TakeWord(t);
    var r := t[|w|..];
    WordStep(t);
    RunStep(r);
    SuffixEnds(t, |w|);
    assert Words(r) == [];
  }

  /** A word, a run of whitespace, and more words. */
  lemma {:induction false} CollapseMore(t: string)
    requires t != [] && !IsSpace(t[0])
    requires var r := t[|TakeWord(t)|..]; r != [] && IsSpace(r[0]) && SkipSpaces(r) != []
    requires var r' := SkipSpaces(t[|TakeWord(t)|..]); Collapse(r') == JoinWords(Words(r')) + Tail(r')
    ensures Collapse(t) == JoinWords(Words(t)) + Tail(t)
  {
    var w := TakeWord(t);
    var r := t[|w|..];
    var r' := SkipSpaces(r);
    WordStep(t);
    RunStep(r);
    SuffixEnds(t, |w|);
    assert Words(t) == [w] + Words(r');
    assert Collapse(t) == w + (" " + (JoinWords(Words(r')) + Tail(t)));
    JoinCons(w, Words(r'), Tail(t));
  }

  /** One more word in front of joined words. */
  lemma {:induction false} JoinCons(w: string, ws: seq<string>, tail: string)
    requires ws != []
    ensures w + (" " + (JoinWords(ws) + tail)) == JoinWords([w] + ws) + tail
  {
    assert ([w] + ws)[0] == w && ([w] + ws)[1..] == ws;
    Regroup(w, " ", JoinWords(ws), tail);
  }

  /** Joined words neither start nor end with whitespace. */
  lemma {:induction false} JoinWordsEnds(ws: seq<string>)
    requires IsWordList(ws)
    ensures JoinWords(ws) == [] <==> ws == []
    ensures JoinWords(ws) != [] ==> !IsSpace(JoinWords(ws)[0]) && !IsSpace(JoinWords(ws)[|JoinWords(ws)| - 1])
  {
    if |ws| > 1 {
      JoinWordsEnds(ws[1..]);
      var j := JoinWords(ws[1..]);
      assert JoinWords(ws) == ws[0] + " " + j;
      assert JoinWords(ws)[0] == ws[0][0];
      assert JoinWords(ws)[|JoinWords(ws)| - 1] == j[|j| - 1];
    } else if |ws| == 1 {
      assert NoSpace(ws[0]);
    }
  }

  /** Leading whitespace collapses to one space, which the strip removes. */
  lemma {:induction false} SkipCollapse(s: string)
    ensures SkipSpaces(Collapse(s)) == Collapse(SkipSpaces(s))
  {
    var t := SkipSpaces(s);
    var c := Collapse(t);
    assert c == [] || !IsSpace(c[0]) by {
      if t != [] {
        assert !IsSpace(t[0]);
        assert c == [t[0]] + Collapse(t[1..]);
      }
    }
    SkipSpacesStops(c);
    if s != [] && IsSpace(s[0]) {
      assert SkipSpaces(s[1..]) == t;
      assert Collapse(s) == " " + c;
      SkipSpacesSpace(c);
    } else {
      assert t == s;
    }
  }

  lemma {:induction false} SkipSpacesStops(x: string)
    requires x == [] || !IsSpace(x[0])
    ensures SkipSpaces(x) == x
  {
  }

  lemma {:induction false} SkipSpacesSpace(x: string)
    ensures SkipSpaces(" " + x) == SkipSpaces(x)
  {
    assert (" " + x)[0] == ' ' && (" " + x)[1..] == x;
  }

  /** Trimming the end of joined words and the collapsed trailing space. */
  lemma {:induction false} TrimJoined(ws: seq<string>, t: string)
    requires IsWordList(ws)
    ensures TrimEnd(JoinWords(ws) + Tail(t)) == JoinWords(ws)
  {
    JoinWordsEnds(ws);
    var j := JoinWords(ws);
    var tail := Tail(t);
    if EndsInSpace(t) {
      assert (j + tail)[..|j + tail| - 1] == j;
    } else {
      assert j + tail == j;
    }
  }

  /** Collapsing and then stripping joins the words by single spaces. */
  lemma {:induction false} StripCollapse(s: string)
    ensures Strip(Collapse(s)) == JoinWords(Words(s))
  {
    var t := SkipSpaces(s);
    WordsSkipSpaces(s);
    WordsShape(s);
    CollapseWords(t);
    SkipCollapse(s);
    TrimJoined(Words(s), t);
  }

  // ---------------------------------------------------------------------
  // Strip

  /** Stripping a spaced text leaves the normal form. */
  lemma {:induction false} StripNormalizes(r: string)
    requires IsSpaced(r)
    ensures IsNormalized(Strip(r))
  {
    WhitelistedNotSpace(' ');
    var t := SkipSpaces(r);
    SpacedSlice(r, |r| - |t|, |r|);
    var u := TrimEnd(t);
    SpacedSlice(t, 0, |u|);
    assert u == t[..|u|];
  }

  /** A text in normal form has no whitespace to strip. */
  lemma StripKeepsNormalized(s: string)
    requires IsNormalized(s)
    ensures SkipSpaces(s) == s && TrimEnd(s) == s
  {
    if s != [] {
      WhitelistedNotSpace(s[0]);
      WhitelistedNotSpace(s[|s| - 1]);
    }
  }

  // ---------------------------------------------------------------------
  // Visible characters

  lemma {:induction false} VisibleSkipSpaces(s: string)
    ensures Visible(SkipSpaces(s)) == Visible(s)
  {
    if s != [] && IsSpace(s[0]) {
      VisibleSkipSpaces(s[1..]);
      assert [] + Visible(s[1..]) == Visible(s[1..]);
    }
  }

  lemma {:induction false} VisibleCollapse(s: string)
    ensures Visible(Collapse(s)) == Visible(s)
    decreases |s|
  {
    WhitelistedNotSpace(' ');
    if s == [] {
    } else if IsSpace(s[0]) {
      var t := SkipSpaces(s[1..]);
      VisibleCollapse(t);
      VisibleSkipSpaces(s[1..]);
      assert (" " + Collapse(t))[1..] == Collapse(t);
      assert Visible(" " + Collapse(t)) == Visible(Collapse(t));
      assert Visible(s) == Visible(s[1..]);
    } else {
      VisibleCollapse(s[1..]);
      assert ([s[0]] + Collapse(s[1..]))[1..] == Collapse(s[1..]);
    }
  }

  lemma {:induction false} VisibleAppendSpace(s: string, c: char)
    requires IsSpace(c)
    ensures Visible(s + [c]) == Visible(s)
  {
    if s == [] {
      assert Visible([c]) == [] + Visible([c][1..]);
    } else {
      assert (s + [c])[0] == s[0];
      assert (s + [c])[1..] == s[1..] + [c];
      VisibleAppendSpace(s[1..], c);
    }
  }

  lemma {:induction false} VisibleTrimEnd(s: string)
    ensures Visible(TrimEnd(s)) == Visible(s)
  {
    if s != [] && IsSpace(s[|s| - 1]) {
      VisibleTrimEnd(s[..|s| - 1]);
      VisibleAppendSpace(s[..|s| - 1], s[|s| - 1]);
      assert s[..|s| - 1] + [s[|s| - 1]] == s;
    }
  }

  lemma VisibleStrip(s: string)
    ensures Visible(Strip(s)) == Visible(s)
  {
    VisibleSkipSpaces(s);
    VisibleTrimEnd(SkipSpaces(s));
  }

  lemma {:induction false} VisibleFilter(s: string)
    ensures Visible(Filter(s)) == Whitelisted(s)
  {
    if s != [] {
      VisibleFilter(s[1..]);
      WhitelistedNotSpace(s[0]);
      if IsKept(s[0]) {
        assert ([s[0]] + Filter(s[1..]))[0] == s[0];
        assert ([s[0]] + Filter(s[1..]))[1..] == Filter(s[1..]);
      } else {
        assert [] + Filter(s[1..]) == Filter(s[1..]);
      }
    }
  }

  // ---------------------------------------------------------------------
  // The properties of clean_text

  /** A cleaned text consists of ASCII letters, digits, `.`, `,` and single
      spaces, and neither starts nor ends with a space. */
  lemma CleanTextNormalized(text: string)
    ensures IsNormalized(CleanText(text))
  {
    CollapseSpaced(Filter(text));
    StripNormalizes(Collapse(Filter(text)));
  }

  /** Apart from spacing, a cleaned text is exactly the whitelisted
      characters of the input, in their order. */
  lemma CleanTextVisible(text: string)
    ensures Visible(CleanText(text)) == Whitelisted(text)
  {
    VisibleFilter(text);
    VisibleCollapse(Filter(text));
    VisibleStrip(Collapse(Filter(text)));
  }

  /** A cleaned text is the words of the filtered input joined by single
      spaces: every run of whitespace between two words becomes exactly one
      space, and the runs at either end disappear. */
  lemma {:induction false} CleanTextWords(text: string)
    ensures CleanText(text) == JoinWords(Words(Filter(text)))
  {
    StripCollapse(Filter(text));
  }

  lemma {:induction false} FilterKeepsKept(s: string)
    requires AllKept(s)
    ensures Filter(s) == s
  {
    if s != [] {
      AllKeptSuffix(s, 1);
      FilterKeepsKept(s[1..]);
      assert IsKept(s[0]);
    }
  }

  /** A text already in normal form is its own cleaning. */
  lemma NormalizedIsFixpoint(s: string)
    requires IsNormalized(s)
    ensures Filter(s) == s && Strip(Collapse(s)) == s
    ensures CleanText(s) == s
  {
    assert AllKept(s) by {
      forall i | 0 <= i < |s| ensures IsKept(s[i]) {
        WhitelistedNotSpace(s[i]);
      }
    }
    FilterKeepsKept(s);
    CollapseKeepsSpaced(s);
    StripKeepsNormalized(s);
  }

  /** `clean_text` is idempotent. */
  lemma CleanTextIdempotent(text: string)
    ensures CleanText(CleanText(text)) == CleanText(text)
  {
    CleanTextNormalized(text);
    NormalizedIsFixpoint(CleanText(text));
  }

  lemma CleanTextEmpty()
    ensures CleanText("") == ""
  {
  }

  // ---------------------------------------------------------------------
  // A worked example

  lemma FilterPiecesLeft()
    ensures Filter("R@ti") == "Rti" && Filter("ng: ") == "ng "
  {
  }

  lemma FilterPiecesRight()
    ensures Filter("8.5/") == "8.5" && Filter("10!!") == "10"
  {
  }

  lemma FilterExample()
    ensures Filter("R@ting: 8.5/10!!") == "Rting 8.510"
  {
    var a, b, c, d := "R@ti", "ng: ", "8.5/", "10!!";
    ExampleInputPieces();
    assert Filter(a + b + c + d) == Filter(a) + Filter(b) + Filter(c) + Filter(d) by {
      FilterAppend(a + b + c, d);
      FilterAppend(a + b, c);
      FilterAppend(a, b);
    }
    FilterPiecesLeft();
    FilterPiecesRight();
    ExampleOutputPieces();
  }

  lemma ExampleInputPieces()
    ensures "R@ting: 8.5/10!!" == "R@ti" + "ng: " + "8.5/" + "10!!"
  {
  }

  lemma ExampleOutputPieces()
    ensures "Rti" + "ng " + "8.5" + "10" == "Rting 8.510"
  {
  }

  /** A tab between two words becomes one space. */
  lemma {:induction false} CleanTextTab()
    ensures CleanText("a\tb") == "a b"
  {
    assert IsSpace('\t');
    assert Filter("a\tb") == "a\tb";
    assert Collapse("a\tb") == "a b";
  }

  /** The colon, `@`, `/` and `!` are dropped; `.` and the space survive. */
  lemma CleanTextExample()
    ensures CleanText("R@ting: 8.5/10!!") == "Rting 8.510"
  {
    assert IsNormalized("Rting 8.510");
    NormalizedIsFixpoint("Rting 8.510");
    FilterExample();
  }
}
