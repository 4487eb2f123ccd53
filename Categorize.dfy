/**
 * `categorize_text`: scan a fixed, ordered table of movie-metadata
 * categories and, for each, record the first of its keywords that occurs in
 * the text, ignoring case.
 */
module Categorize {
  import opened Wrappers
  import opened OrderedMaps

  /** The category table, in its declaration order: each category name with
      its keywords, in list order. */
  const Categories: seq<(string, seq<string>)> :=
    [Genre, Director, Runtime, Title, ReleaseYear, Rating, Cast, Plot]

  const Genre := ("genre", ["action", "thriller", "comedy", "drama"])
  const Director := ("director", ["director", "directed by"])
  const Runtime := ("runtime", ["runtime", "minutes"])
  const Title := ("title", ["title", "movie", "film"])
  const ReleaseYear := ("release_year", ["release", "year", "released"])
  const Rating := ("rating", ["rating", "rated"])
  const Cast := ("cast", ["cast", "starring", "featuring"])
  const Plot := ("plot", ["plot", "synopsis", "summary"])

  function LowerChar(c: char): char {
    if 'A' <= c <= 'Z' then (c as int + 32) as char else c
  }

  /** `str.lower()` on ASCII letters; every other character is kept. */
  function Lower(s: string): (r: string)
    ensures |r| == |s|
    ensures forall i :: 0 <= i < |s| ==> r[i] == LowerChar(s[i])
  {
    if s == [] then [] else [LowerChar(s[0])] + Lower(s[1..])
  }

  ghost predicate OccursAt(w: string, t: string, i: int) {
    0 <= i && i + |w| <= |t| && t[i..i + |w|] == w
  }

  /** `w in t`: `w` is a contiguous substring of `t`. */
  function Occurs(w: string, t: string): (b: bool)
    ensures b <==> exists i :: OccursAt(w, t, i)
    decreases |t|
  {
    if |t| < |w| then
      assert forall i :: !OccursAt(w, t, i);
      false
    else if w <= t then
      assert OccursAt(w, t, 0);
      true
    else
      var b := Occurs(w, t[1..]);
      assert !OccursAt(w, t, 0);
      assert forall i :: OccursAt(w, t[1..], i) <==> OccursAt(w, t, i + 1) by {
        forall i ensures OccursAt(w, t[1..], i) <==> OccursAt(w, t, i + 1) {
          if 0 <= i && i + |w| <= |t| - 1 {
            assert t[1..][i..i + |w|] == t[i + 1..i + 1 + |w|];
          }
        }
      }
      assert b ==> exists i :: OccursAt(w, t, i) by {
        if b {
          var i :| OccursAt(w, t[1..], i);
          assert OccursAt(w, t, i + 1);
        }
      }
      assert (exists i :: OccursAt(w, t, i)) ==> b by {
        if exists i :: OccursAt(w, t, i) {
          var i :| OccursAt(w, t, i);
          assert i != 0;
          assert OccursAt(w, t[1..], i - 1);
        }
      }
      b
  }

  /** `keyword.lower() in text.lower()`. */
  predicate Matches(keyword: string, text: string) {
    Occurs(Lower(keyword), Lower(text))
  }

  /** `keywords[j]` is the first keyword that matches. */
  ghost predicate FirstAt(keywords: seq<string>, text: string, j: int) {
    && 0 <= j < |keywords|
    && Matches(keywords[j], text)
    && forall m :: 0 <= m < j ==> !Matches(keywords[m], text)
  }

  /** The first keyword, in list order, that matches the text. */
  function FirstMatch(keywords: seq<string>, text: string): (r: Option<string>)
    ensures r.None? <==> forall m :: 0 <= m < |keywords| ==> !Matches(keywords[m], text)
    ensures r.Some? ==> exists j :: FirstAt(keywords, text, j) && keywords[j] == r.value
  {
    if keywords == [] then None
    else if Matches(keywords[0], text) then
      assert FirstAt(keywords, text, 0);
      Some(keywords[0])
    else
      var r := FirstMatch(keywords[1..], text);
      assert forall m :: 1 <= m < |keywords| ==> keywords[m] == keywords[1..][m - 1];
      assert r.Some? ==> exists j :: FirstAt(keywords, text, j) && keywords[j] == r.value by {
        if r.Some? {
          var j :| FirstAt(keywords[1..], text, j) && keywords[1..][j] == r.value;
          assert FirstAt(keywords, text, j + 1);
        }
      }
      r
  }

  /** The dictionary the loops build for a table `cats`: each category with a
      matching keyword is assigned its first matching keyword, in turn. */
  function Categorized(cats: seq<(string, seq<string>)>, text: string): Dict<string, string> {
    if cats == [] then []
    else
      var r := Categorized(cats[..|cats| - 1], text);
      var (name, keywords) := cats[|cats| - 1];
      match FirstMatch(keywords, text)
      case None => r
      case Some(k) => Put(r, name, k)
  }

  function Categorize(text: string): Dict<string, string> {
    Categorized(Categories, text)
  }

  /** The two nested loops of `categorize_text` over a table `cats`, the
      inner one stopping at the first keyword found. */
  method CategorizeWith(cats: seq<(string, seq<string>)>, text: string)
    returns (results: Dict<string, string>)
    ensures results == Categorized(cats, text)
  {
    results := [];
    var i := 0;
    while i < |cats|
      invariant 0 <= i <= |cats|
      invariant results == Categorized(cats[..i], text)
    {
      var (category, keywords) := cats[i];
      assert cats[..i + 1][..i] == cats[..i];
      var j := 0;
      while j < |keywords|
        invariant 0 <= j <= |keywords|
        invariant forall m :: 0 <= m < j ==> !Matches(keywords[m], text)
        invariant results == Categorized(cats[..i], text)
      {
        if Matches(keywords[j], text) {
          assert FirstMatch(keywords, text) == Some(keywords[j]);
          results := Put(results, category, keywords[j]);
          break;
        }
        j := j + 1;
      }
      i := i + 1;
    }
    assert cats[..i] == cats;
  }

  /** `categorize_text`. */
  method CategorizeText(text: string) returns (results: Dict<string, string>)
    ensures results == Categorize(text)
  {
    results := CategorizeWith(Categories, text);
  }

  // ---------------------------------------------------------------------
  // Tables

  /** The names of the categories some keyword of which matches, in table
      order. */
  function MatchedNames(cats: seq<(string, seq<string>)>, text: string): seq<string> {
    if cats == [] then []
    else
      MatchedNames(cats[..|cats| - 1], text)
        + (if FirstMatch(cats[|cats| - 1].1, text).Some? then [cats[|cats| - 1].0] else [])
  }

  /** A name no category of the table carries is never matched. */
  lemma {:induction false} MatchedNamesOutside(cats: seq<(string, seq<string>)>, text: string, x: string)
    requires forall i :: 0 <= i < |cats| ==> cats[i].0 != x
    ensures x !in MatchedNames(cats, text)
  {
    if cats != [] {
      var q := cats[..|cats| - 1];
      assert forall i :: 0 <= i < |q| ==> q[i] == cats[i];
      MatchedNamesOutside(q, text, x);
    }
  }

  // ---------------------------------------------------------------------
  // What the loops record

  /** The recorded categories are exactly those with a matching keyword, in
      table order. */
  lemma {:induction false} CategorizedKeys(cats: seq<(string, seq<string>)>, text: string)
    requires DistinctKeys(cats)
    ensures Keys(Categorized(cats, text)) == MatchedNames(cats, text)
  {
    if cats != [] {
      var q := cats[..|cats| - 1];
      var name := cats[|cats| - 1].0;
      assert DistinctKeys(q);
      CategorizedKeys(q, text);
      assert forall i :: 0 <= i < |q| ==> q[i].0 == cats[i].0;
      MatchedNamesOutside(q, text, name);
    }
  }

  /** Each category of the table holds its first matching keyword, or is
      absent when none matches. */
  lemma {:induction false} CategorizedGet(cats: seq<(string, seq<string>)>, text: string, i: nat)
    requires DistinctKeys(cats)
    requires i < |cats|
    ensures Get(Categorized(cats, text), cats[i].0) == FirstMatch(cats[i].1, text)
  {
    var q := cats[..|cats| - 1];
    var (name, keywords) := cats[|cats| - 1];
    var r := Categorized(q, text);
    assert DistinctKeys(q);
    if i == |cats| - 1 {
      if FirstMatch(keywords, text).Some? {
        GetPut(r, name, FirstMatch(keywords, text).value, name);
      } else {
        CategorizedKeys(q, text);
        assert forall m :: 0 <= m < |q| ==> q[m].0 == cats[m].0;
        MatchedNamesOutside(q, text, name);
      }
    } else {
      CategorizedGet(q, text, i);
      assert q[i] == cats[i];
      if FirstMatch(keywords, text).Some? {
        GetPut(r, name, FirstMatch(keywords, text).value, cats[i].0);
      }
    }
  }

  /** A name outside the table is never recorded. */
  lemma CategorizedGetOther(cats: seq<(string, seq<string>)>, text: string, x: string)
    requires DistinctKeys(cats)
    requires forall i :: 0 <= i < |cats| ==> cats[i].0 != x
    ensures Get(Categorized(cats, text), x) == None
  {
    CategorizedKeys(cats, text);
    MatchedNamesOutside(cats, text, x);
  }

  // ---------------------------------------------------------------------
  // Case and the empty text

  /** Text without capitals is its own lowering. */
  lemma LowerNoCapitals(s: string)
    requires forall i :: 0 <= i < |s| ==> !('A' <= s[i] <= 'Z')
    ensures Lower(s) == s
  {
    assert forall i :: 0 <= i < |s| ==> Lower(s)[i] == s[i];
  }

  lemma LowerIdempotent(s: string)
    ensures Lower(Lower(s)) == Lower(s)
  {
  }

  lemma {:induction false} FirstMatchCase(keywords: seq<string>, t1: string, t2: string)
    requires Lower(t1) == Lower(t2)
    ensures FirstMatch(keywords, t1) == FirstMatch(keywords, t2)
  {
    if keywords != [] {
      FirstMatchCase(keywords[1..], t1, t2);
    }
  }

  /** Only the lowered text matters. */
  lemma {:induction false} CategorizedCase(cats: seq<(string, seq<string>)>, t1: string, t2: string)
    requires Lower(t1) == Lower(t2)
    ensures Categorized(cats, t1) == Categorized(cats, t2)
  {
    if cats != [] {
      CategorizedCase(cats[..|cats| - 1], t1, t2);
      FirstMatchCase(cats[|cats| - 1].1, t1, t2);
    }
  }

  /** No category is recorded for an empty text when every keyword is
      nonempty. */
  lemma {:induction false} CategorizedEmpty(cats: seq<(string, seq<string>)>)
    requires forall i, j :: 0 <= i < |cats| && 0 <= j < |cats[i].1| ==> cats[i].1[j] != ""
    ensures Categorized(cats, "") == []
  {
    if cats != [] {
      var keywords := cats[|cats| - 1].1;
      forall m | 0 <= m < |keywords| ensures !Matches(keywords[m], "") {
        assert keywords[m] != "";
      }
      CategorizedEmpty(cats[..|cats| - 1]);
    }
  }

  // ---------------------------------------------------------------------
  // The table of categorize_text

  lemma CategoriesWellFormed()
    ensures DistinctKeys(Categories)
    ensures forall i, j :: 0 <= i < |Categories| && 0 <= j < |Categories[i].1| ==> Categories[i].1[j] != ""
  {
  }

  /** The result's keys are category names, in table order: exactly the
      categories some keyword of which occurs in the text. */
  lemma CategorizeKeys(text: string)
    ensures Keys(Categorize(text)) == MatchedNames(Categories, text)
  {
    CategoriesWellFormed();
    CategorizedKeys(Categories, text);
  }

  /** Each category's value is its first keyword, in list order, that occurs
      in the lowered text; it is absent exactly when none does. */
  lemma CategorizeGet(text: string, i: nat)
    requires i < |Categories|
    ensures Get(Categorize(text), Categories[i].0) == FirstMatch(Categories[i].1, text)
  {
    CategoriesWellFormed();
    CategorizedGet(Categories, text, i);
  }

  lemma CategorizeEmpty()
    ensures Categorize("") == []
  {
    CategoriesWellFormed();
    CategorizedEmpty(Categories);
  }

  /** `categorize_text(t) == categorize_text(t.lower())`. */
  lemma CategorizeLower(text: string)
    ensures Categorize(Lower(text)) == Categorize(text)
  {
    LowerIdempotent(text);
    CategorizedCase(Categories, Lower(text), text);
  }

  /** A longer keyword found in the text means every prefix of it is found. */
  lemma OccursPrefix(v: string, w: string, t: string)
    requires v <= w && Occurs(w, t)
    ensures Occurs(v, t)
  {
    var i :| OccursAt(w, t, i);
    assert t[i..i + |v|] == w[..|v|];
    assert OccursAt(v, t, i);
  }

  /** A keyword is never recorded when an earlier keyword of the same list
      is, after lowering, a prefix of it. */
  lemma ShadowedKeyword(keywords: seq<string>, text: string, m: nat, j: nat)
    requires m < j < |keywords|
    requires Lower(keywords[m]) <= Lower(keywords[j])
    requires forall n :: 0 <= n < |keywords| && n != j ==> keywords[n] != keywords[j]
    ensures FirstMatch(keywords, text) != Some(keywords[j])
  {
    assert Matches(keywords[j], text) ==> Matches(keywords[m], text) by {
      if Matches(keywords[j], text) {
        OccursPrefix(Lower(keywords[m]), Lower(keywords[j]), Lower(text));
      }
    }
  }

  /** `"released"` is never the recorded release year keyword: whenever it
      occurs, `"release"`, listed before it, occurs too. */
  lemma ReleasedNeverRecorded(text: string)
    ensures Get(Categorize(text), "release_year") != Some("released")
  {
    var keywords := ReleaseYear.1;
    LowerNoCapitals(keywords[0]);
    LowerNoCapitals(keywords[2]);
    ShadowedKeyword(keywords, text, 0, 2);
    assert Categories[4] == ReleaseYear;
    CategorizeGet(text, 4);
  }

  // ---------------------------------------------------------------------
  // Keywords found and not found

  /** Every keyword of the table is written in lower case. */
  lemma KeywordsLowercase()
    ensures forall i, j :: 0 <= i < |Categories| && 0 <= j < |Categories[i].1| ==>
              Lower(Categories[i].1[j]) == Categories[i].1[j]
  {
    forall c | c in Categories ensures forall j :: 0 <= j < |c.1| ==> Lower(c.1[j]) == c.1[j] {
      forall j | 0 <= j < |c.1| ensures Lower(c.1[j]) == c.1[j] {
        LowerNoCapitals(c.1[j]);
      }
    }
  }

  lemma FirstKeywordRecorded(cats: seq<(string, seq<string>)>, t: string, l: string, i: nat, at: nat)
    requires DistinctKeys(cats) && i < |cats| && cats[i].1 != []
    requires Lower(cats[i].1[0]) == cats[i].1[0] && Lower(t) == l && OccursAt(cats[i].1[0], l, at)
    ensures Get(Categorized(cats, t), cats[i].0) == Some(cats[i].1[0])
  {
    assert Matches(cats[i].1[0], t);
    CategorizedGet(cats, t, i);
  }

  /** A category whose first keyword occurs in the lowered text records
      that keyword. */
  lemma CategorizeFirstKeyword(t: string, l: string, i: int, at: nat)
    requires 0 <= i < |Categories| && Lower(t) == l
    requires OccursAt(Categories[i].1[0], l, at)
    ensures Get(Categorize(t), Categories[i].0) == Some(Categories[i].1[0])
  {
    KeywordsLowercase();
    CategoriesWellFormed();
    FirstKeywordRecorded(Categories, t, l, i, at);
  }

  lemma SecondKeywordRecorded(cats: seq<(string, seq<string>)>, t: string, l: string, i: nat, at: nat)
    requires DistinctKeys(cats) && i < |cats| && |cats[i].1| >= 2
    requires Lower(cats[i].1[0]) == cats[i].1[0] && Lower(cats[i].1[1]) == cats[i].1[1]
    requires Lower(t) == l && !Occurs(cats[i].1[0], l) && OccursAt(cats[i].1[1], l, at)
    ensures Get(Categorized(cats, t), cats[i].0) == Some(cats[i].1[1])
  {
    assert !Matches(cats[i].1[0], t);
    assert Matches(cats[i].1[1], t);
    CategorizedGet(cats, t, i);
  }

  /** A category whose first keyword does not occur in the lowered text but
      whose second does records the second. */
  lemma CategorizeSecondKeyword(t: string, l: string, i: int, at: nat)
    requires 0 <= i < |Categories| && |Categories[i].1| >= 2 && Lower(t) == l
    requires !Occurs(Categories[i].1[0], l) && OccursAt(Categories[i].1[1], l, at)
    ensures Get(Categorize(t), Categories[i].0) == Some(Categories[i].1[1])
  {
    KeywordsLowercase();
    CategoriesWellFormed();
    SecondKeywordRecorded(Categories, t, l, i, at);
  }

  /** A category none of whose keywords occurs in the lowered text is not
      recorded. */
  lemma CategorizeNoKeyword(t: string, l: string, i: int)
    requires 0 <= i < |Categories| && Lower(t) == l
    requires forall m :: 0 <= m < |Categories[i].1| ==> !Occurs(Categories[i].1[m], l)
    ensures Get(Categorize(t), Categories[i].0) == None
  {
    CategoriesWellFormed();
    KeywordsLowercase();
    CategorizeGet(t, i);
  }

  lemma LowerIs(s: string, r: string)
    requires |s| == |r|
    requires forall i :: 0 <= i < |s| ==> LowerChar(s[i]) == r[i]
    ensures Lower(s) == r
  {
  }

  lemma OccursAtIs(w: string, t: string, i: nat)
    requires i + |w| <= |t|
    requires forall c :: 0 <= c < |w| ==> t[i + c] == w[c]
    ensures OccursAt(w, t, i)
  {
    assert t[i..i + |w|] == w;
  }

  /** Position `k` of `w` holds a character that is not among `letters`,
      or starts a pair of adjacent characters that is not among `pairs`. */
  ghost predicate Missing(w: string, k: int, letters: set<char>, pairs: set<(char, char)>) {
    0 <= k < |w| && (w[k] !in letters || (k + 1 < |w| && (w[k], w[k + 1]) !in pairs))
  }

  lemma NotAt(w: string, t: string, i: int, k: int, letters: set<char>, pairs: set<(char, char)>)
    requires forall j :: 0 <= j < |t| ==> t[j] in letters
    requires forall j :: 0 <= j < |t| - 1 ==> (t[j], t[j + 1]) in pairs
    requires Missing(w, k, letters, pairs)
    ensures !OccursAt(w, t, i)
  {
    if 0 <= i && i + |w| <= |t| {
      if w[k] !in letters {
        assert t[i..i + |w|][k] == t[i + k];
      } else {
        assert t[i..i + |w|][k + 1] == t[i + k + 1];
      }
    }
  }

  /** Keywords none of which occurs in `t`, each because of a character or
      a pair of adjacent characters that never appears in `t`. */
  lemma NoneOccurs(ks: seq<string>, t: string, letters: set<char>, pairs: set<(char, char)>, at: seq<nat>)
    requires forall j :: 0 <= j < |t| ==> t[j] in letters
    requires forall j :: 0 <= j < |t| - 1 ==> (t[j], t[j + 1]) in pairs
    requires |at| == |ks|
    requires forall m :: 0 <= m < |ks| ==> Missing(ks[m], at[m], letters, pairs)
    ensures forall m :: 0 <= m < |ks| ==> !Occurs(ks[m], t)
  {
    forall m, i | 0 <= m < |ks| ensures !OccursAt(ks[m], t, i) {
      NotAt(ks[m], t, i, at[m], letters, pairs);
    }
  }

  /** The table through its constants, so that a single category can be
      named without the whole table. */
  lemma GenreFirst(t: string, l: string, at: nat)
    requires Lower(t) == l && OccursAt("action", l, at)
    ensures Get(Categorize(t), "genre") == Some("action")
  {
    CategorizeFirstKeyword(t, l, 0, at);
  }

  lemma DirectorEntry()
    ensures Categories[1].0 == "director" && |Categories[1].1| == 2
    ensures Categories[1].1[0] == "director" && Categories[1].1[1] == "directed by"
  {
  }

  lemma DirectorFirst(t: string, l: string, at: nat)
    requires Lower(t) == l && OccursAt("director", l, at)
    ensures Get(Categorize(t), "director") == Some("director")
  {
    DirectorEntry();
    CategorizeFirstKeyword(t, l, 1, at);
  }

  lemma DirectorSecond(t: string, l: string, at: nat)
    requires Lower(t) == l && !Occurs("director", l) && OccursAt("directed by", l, at)
    ensures Get(Categorize(t), "director") == Some("directed by")
  {
    DirectorEntry();
    CategorizeSecondKeyword(t, l, 1, at);
  }

  lemma RuntimeNone(t: string, l: string)
    requires Lower(t) == l
    requires forall m :: 0 <= m < |Runtime.1| ==> !Occurs(Runtime.1[m], l)
    ensures Get(Categorize(t), "runtime") == None
  {
    CategorizeNoKeyword(t, l, 2);
  }

  lemma TitleNone(t: string, l: string)
    requires Lower(t) == l
    requires forall m :: 0 <= m < |Title.1| ==> !Occurs(Title.1[m], l)
    ensures Get(Categorize(t), "title") == None
  {
    CategorizeNoKeyword(t, l, 3);
  }

  lemma ReleaseYearNone(t: string, l: string)
    requires Lower(t) == l
    requires forall m :: 0 <= m < |ReleaseYear.1| ==> !Occurs(ReleaseYear.1[m], l)
    ensures Get(Categorize(t), "release_year") == None
  {
    CategorizeNoKeyword(t, l, 4);
  }

  lemma RatingNone(t: string, l: string)
    requires Lower(t) == l
    requires forall m :: 0 <= m < |Rating.1| ==> !Occurs(Rating.1[m], l)
    ensures Get(Categorize(t), "rating") == None
  {
    CategorizeNoKeyword(t, l, 5);
  }

  lemma CastNone(t: string, l: string)
    requires Lower(t) == l
    requires forall m :: 0 <= m < |Cast.1| ==> !Occurs(Cast.1[m], l)
    ensures Get(Categorize(t), "cast") == None
  {
    CategorizeNoKeyword(t, l, 6);
  }

  lemma PlotNone(t: string, l: string)
    requires Lower(t) == l
    requires forall m :: 0 <= m < |Plot.1| ==> !Occurs(Plot.1[m], l)
    ensures Get(Categorize(t), "plot") == None
  {
    CategorizeNoKeyword(t, l, 7);
  }

  // ---------------------------------------------------------------------
  // A worked example

  const ExampleText := "Directed by J. Smith, Genre: Action"
  const ExampleLowerText := "directed by j. smith, genre: action"

  /** The characters of the lowered example. */
  const ExampleChars: set<char> := {
    ' ', ',', '.', ':', 'a', 'b', 'c', 'd', 'e', 'g', 'h', 'i', 'j', 'm', 'n', 'o', 'r', 's', 't', 'y'
  }

  /** The pairs of adjacent characters of the lowered example. */
  const ExamplePairs: set<(char, char)> := {
    (' ', 'a'), (' ', 'b'), (' ', 'g'), (' ', 'j'), (' ', 's'), (',', ' '), ('.', ' '), (':', ' '),
    ('a', 'c'), ('b', 'y'), ('c', 't'), ('d', ' '), ('d', 'i'), ('e', ':'), ('e', 'c'), ('e', 'd'),
    ('e', 'n'), ('g', 'e'), ('h', ','), ('i', 'o'), ('i', 'r'), ('i', 't'), ('j', '.'), ('m', 'i'),
    ('n', 'r'), ('o', 'n'), ('r', 'e'), ('s', 'm'), ('t', 'e'), ('t', 'h'), ('t', 'i'), ('y', ' ')
  }

  lemma ExampleLowered()
    ensures Lower(ExampleText) == ExampleLowerText
  {
    LowerIs(ExampleText, ExampleLowerText);
  }

  lemma ExampleLetters(t: string)
    requires t == ExampleLowerText
    ensures forall j :: 0 <= j < |t| ==> t[j] in ExampleChars
    ensures forall j :: 0 <= j < |t| - 1 ==> (t[j], t[j + 1]) in ExamplePairs
  {
  }

  /** The text names its genre by the first keyword of the list, and its
      director by the second: "directed" is not "director". */
  lemma CategorizeExample()
    ensures Get(Categorize(ExampleText), "genre") == Some("action")
    ensures Get(Categorize(ExampleText), "director") == Some("directed by")
  {
    OccursAtIs("action", ExampleLowerText, 29);
    OccursAtIs("directed by", ExampleLowerText, 0);
    ExampleLowered();
    ExampleDirectorAbsent();
    GenreFirst(ExampleText, ExampleLowerText, 29);
    DirectorSecond(ExampleText, ExampleLowerText, 0);
  }

  lemma ExampleDirectorAbsent()
    ensures !Occurs("director", ExampleLowerText)
  {
    ExampleLetters(ExampleLowerText);
    NoneOccurs(["director"], ExampleLowerText, ExampleChars, ExamplePairs, [5]);
    assert ["director"][0] == "director";
  }

  /** None of the other six categories has a keyword in the text, so none
      of them is recorded. */
  lemma CategorizeExampleOthers()
    ensures Get(Categorize(ExampleText), "runtime") == None
    ensures Get(Categorize(ExampleText), "title") == None
    ensures Get(Categorize(ExampleText), "release_year") == None
    ensures Get(Categorize(ExampleText), "rating") == None
    ensures Get(Categorize(ExampleText), "cast") == None
    ensures Get(Categorize(ExampleText), "plot") == None
  {
    ExampleLowered();
    ExampleRuntimeAbsent();
    RuntimeNone(ExampleText, ExampleLowerText);
    ExampleTitleAbsent();
    TitleNone(ExampleText, ExampleLowerText);
    ExampleReleaseYearAbsent();
    ReleaseYearNone(ExampleText, ExampleLowerText);
    ExampleRatingAbsent();
    RatingNone(ExampleText, ExampleLowerText);
    ExampleCastAbsent();
    CastNone(ExampleText, ExampleLowerText);
    ExamplePlotAbsent();
    PlotNone(ExampleText, ExampleLowerText);
  }

  lemma ExampleRuntimeAbsent()
    ensures forall m :: 0 <= m < |Runtime.1| ==> !Occurs(Runtime.1[m], ExampleLowerText)
  {
    ExampleLetters(ExampleLowerText);
    NoneOccurs(Runtime.1, ExampleLowerText, ExampleChars, ExamplePairs, [0, 1]);
  }

  lemma ExampleTitleAbsent()
    ensures forall m :: 0 <= m < |Title.1| ==> !Occurs(Title.1[m], ExampleLowerText)
  {
    ExampleLetters(ExampleLowerText);
    NoneOccurs(Title.1, ExampleLowerText, ExampleChars, ExamplePairs, [2, 0, 0]);
  }

  lemma ExampleReleaseYearAbsent()
    ensures forall m :: 0 <= m < |ReleaseYear.1| ==> !Occurs(ReleaseYear.1[m], ExampleLowerText)
  {
    ExampleLetters(ExampleLowerText);
    NoneOccurs(ReleaseYear.1, ExampleLowerText, ExampleChars, ExamplePairs, [1, 0, 1]);
  }

  lemma ExampleRatingAbsent()
    ensures forall m :: 0 <= m < |Rating.1| ==> !Occurs(Rating.1[m], ExampleLowerText)
  {
    ExampleLetters(ExampleLowerText);
    NoneOccurs(Rating.1, ExampleLowerText, ExampleChars, ExamplePairs, [0, 0]);
  }

  lemma ExampleCastAbsent()
    ensures forall m :: 0 <= m < |Cast.1| ==> !Occurs(Cast.1[m], ExampleLowerText)
  {
    ExampleLetters(ExampleLowerText);
    NoneOccurs(Cast.1, ExampleLowerText, ExampleChars, ExamplePairs, [0, 0, 0]);
  }

  lemma ExamplePlotAbsent()
    ensures forall m :: 0 <= m < |Plot.1| ==> !Occurs(Plot.1[m], ExampleLowerText)
  {
    ExampleLetters(ExampleLowerText);
    NoneOccurs(Plot.1, ExampleLowerText, ExampleChars, ExamplePairs, [0, 0, 0]);
  }
}
