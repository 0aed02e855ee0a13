/**
 The two text canonicalizers: public path segments, with words joined by '-',
 and catalog names, with words joined by ' '. Unicode normalization and case
 mapping are parameters.
 */
module PlainText {

  predicate IsAlnum(c: char) {
    'a' <= c <= 'z' || '0' <= c <= '9'
  }

  /** Replaces each run of other characters by one separator. */
  function Collapse(s: string, sep: char): string {
    if s == "" then ""
    else
      var n := |s| - 1;
      var r := Collapse(s[..n], sep);
      if IsAlnum(s[n]) then r + [s[n]]
      else if n > 0 && !IsAlnum(s[n - 1]) then r
      else r + [sep]
  }

  function TrimLeft(s: string, sep: char): string {
    if s != "" && s[0] == sep then TrimLeft(s[1..], sep) else s
  }

  function TrimRight(s: string, sep: char): string {
    if s != "" && s[|s| - 1] == sep then TrimRight(s[..|s| - 1], sep) else s
  }

  function Segment(s: string, sep: char): string {
    TrimRight(TrimLeft(Collapse(s, sep), sep), sep)
  }

  function Remove(s: string, drop: char -> bool): string {
    if s == "" then "" else Remove(s[..|s| - 1], drop) + if drop(s[|s| - 1]) then "" else [s[|s| - 1]]
  }

  predicate IsCombiningDiacritic(c: char) {
    0x300 <= c as int <= 0x36f
  }

  /** slugifyPublicPathSegment */
  function Slugify(value: string, nfd: string -> string, lower: string -> string): string {
    Segment(lower(Remove(nfd(value), c => IsCombiningDiacritic(c))), '-')
  }

  /** _plain of revision 0075 */
  function Plain(value: string, casefold: string -> string, nfkd: string -> string, combining: char -> bool): string {
    Segment(Remove(nfkd(casefold(value)), combining), ' ')
  }

  // ---------------------------------------------------------------------
  // The reference: the words of a text.
  // ---------------------------------------------------------------------

  /** The maximal runs of letters and digits. */
  function Words(s: string): seq<string> {
    if s == "" then []
    else
      var n := |s| - 1;
      var w := Words(s[..n]);
      if !IsAlnum(s[n]) then w
      else if n > 0 && IsAlnum(s[n - 1]) && w != [] then w[..|w| - 1] + [w[|w| - 1] + [s[n]]]
      else w + [[s[n]]]
  }

  function Join(words: seq<string>, sep: char): string {
    if words == [] then ""
    else if |words| == 1 then words[0]
    else Join(words[..|words| - 1], sep) + [sep] + words[|words| - 1]
  }

  /** Runs of letters and digits joined by single separators, with none at the ends. */
  predicate Canonical(s: string, sep: char) {
    s == "" || (IsAlnum(s[0]) && IsAlnum(s[|s| - 1]) && Spaced(s, sep))
  }

  predicate Spaced(s: string, sep: char) {
    && (forall i :: 0 <= i < |s| ==> IsAlnum(s[i]) || s[i] == sep)
    && (forall i :: 0 < i < |s| ==> IsAlnum(s[i - 1]) || IsAlnum(s[i]))
  }

  predicate IsWord(x: string) {
    x != "" && forall i :: 0 <= i < |x| ==> IsAlnum(x[i])
  }

  predicate AreWords(w: seq<string>) {
    forall i :: 0 <= i < |w| ==> IsWord(w[i])
  }

  lemma {:induction false} WordsAreWords(s: string)
    ensures AreWords(Words(s))
    ensures Words(s) == [] ==> forall i :: 0 <= i < |s| ==> !IsAlnum(s[i])
  {
    if s != "" {
      var n := |s| - 1;
      var w := Words(s[..n]);
      WordsAreWords(s[..n]);
      if !IsAlnum(s[n]) {
        assert Words(s) == w;
        assert forall i :: 0 <= i < n ==> s[..n][i] == s[i];
      } else if n > 0 && IsAlnum(s[n - 1]) && w != [] {
        assert Words(s) == w[..|w| - 1] + [w[|w| - 1] + [s[n]]];
        assert IsWord(w[|w| - 1] + [s[n]]);
      } else {
        assert Words(s) == w + [[s[n]]];
        assert IsWord([s[n]]);
      }
    }
  }

  lemma {:induction false} JoinIsCanonical(w: seq<string>, sep: char)
    requires AreWords(w)
    ensures Canonical(Join(w, sep), sep) && (w != [] ==> Join(w, sep) != "")
  {
    if |w| == 1 {
      assert IsWord(w[0]);
    } else if |w| > 1 {
      var last := w[|w| - 1];
      JoinIsCanonical(w[..|w| - 1], sep);
      assert IsWord(last);
      var s := Join(w[..|w| - 1], sep);
      var t := s + [sep] + last;
      assert forall i :: 0 <= i < |t| ==> t[i] == if i < |s| then s[i] else if i == |s| then sep else last[i - |s| - 1];
    }
  }

  lemma JoinExtend(w: seq<string>, c: char, sep: char)
    requires w != []
    ensures Join(w[..|w| - 1] + [w[|w| - 1] + [c]], sep) == Join(w, sep) + [c]
  {
  }

  lemma JoinAppend(w: seq<string>, word: string, sep: char)
    ensures Join(w + [word], sep) == if w == [] then word else Join(w, sep) + [sep] + word
  {
  }

  function Edge(s: string, i: nat, sep: char): string
    requires i < |s|
  {
    if IsAlnum(s[i]) then "" else [sep]
  }

  predicate HasShape(s: string, sep: char) {
    var w := Words(s);
    Collapse(s, sep) == if s == "" then ""
                        else if w == [] then [sep]
                        else Edge(s, 0, sep) + Join(w, sep) + Edge(s, |s| - 1, sep)
  }

  lemma NewWord(s: string, sep: char)
    requires s != "" && IsAlnum(s[|s| - 1]) && (|s| == 1 || !IsAlnum(s[|s| - 2]))
    requires HasShape(s[..|s| - 1], sep)
    ensures HasShape(s, sep)
  {
    var n := |s| - 1;
    var w, c := Words(s[..n]), s[n];
    WordsAreWords(s[..n]);
    JoinAppend(w, [c], sep);
    assert Words(s) == w + [[c]];
    if n > 0 {
      assert s[..n][0] == s[0] && s[..n][n - 1] == s[n - 1];
      if w == [] {
        assert Collapse(s, sep) == [sep] + [c];
      } else {
        var e, j := Edge(s, 0, sep), Join(w, sep);
        assert e + j + [sep] + [c] == e + (j + [sep] + [c]) + "";
      }
    }
  }

  lemma LongerWord(s: string, sep: char)
    requires |s| > 1 && IsAlnum(s[|s| - 1]) && IsAlnum(s[|s| - 2])
    requires HasShape(s[..|s| - 1], sep)
    ensures HasShape(s, sep)
  {
    var n := |s| - 1;
    var w, c := Words(s[..n]), s[n];
    WordsAreWords(s[..n]);
    assert s[..n][0] == s[0] && s[..n][n - 1] == s[n - 1];
    JoinExtend(w, c, sep);
    var e, j := Edge(s, 0, sep), Join(w, sep);
    assert e + j + "" + [c] == e + (j + [c]) + "";
  }

  /** Collapsing leaves the words joined by separators, and at most one separator at each end. */
  lemma {:induction false} CollapseShape(s: string, sep: char)
    requires !IsAlnum(sep)
    ensures HasShape(s, sep)
  {
    if s != "" {
      var n := |s| - 1;
      CollapseShape(s[..n], sep);
      if !IsAlnum(s[n]) {
        if n > 0 { assert s[..n][0] == s[0] && s[..n][n - 1] == s[n - 1]; }
      } else if n > 0 && IsAlnum(s[n - 1]) {
        LongerWord(s, sep);
      } else {
        NewWord(s, sep);
      }
    }
  }

  lemma {:induction false} TrimNothing(s: string, sep: char)
    requires Canonical(s, sep) && !IsAlnum(sep)
    ensures TrimLeft(s, sep) == s && TrimRight(s, sep) == s
    ensures TrimLeft([sep] + s, sep) == s
    ensures s != "" ==> TrimRight(s + [sep], sep) == s && TrimLeft(s + [sep], sep) == s + [sep]
    ensures s != "" ==> TrimLeft([sep] + s + [sep], sep) == s + [sep]
  {
  }

  /** The result is the words of the text joined by the separator: a canonical form. */
  lemma SegmentJoinsTheWords(s: string, sep: char)
    requires !IsAlnum(sep)
    ensures Segment(s, sep) == Join(Words(s), sep)
    ensures Canonical(Segment(s, sep), sep)
  {
    var w := Words(s);
    CollapseShape(s, sep);
    WordsAreWords(s);
    JoinIsCanonical(w, sep);
    TrimNothing(Join(w, sep), sep);
    TrimNothing("", sep);
    assert [sep] + "" == [sep];
    if s != "" && w != [] {
      var j := Join(w, sep);
      assert "" + j + "" == j && [sep] + j + "" == [sep] + j && "" + j + [sep] == j + [sep];
    }
  }

  lemma {:induction false} CollapseNothing(s: string, sep: char)
    requires Spaced(s, sep)
    ensures Collapse(s, sep) == s
  {
    if s != "" {
      CollapseNothing(s[..|s| - 1], sep);
      assert s == s[..|s| - 1] + [s[|s| - 1]];
    }
  }

  /** Exactly the canonical texts are left alone. */
  lemma FixedPoints(s: string, sep: char)
    requires !IsAlnum(sep)
    ensures Segment(s, sep) == s <==> Canonical(s, sep)
  {
    SegmentJoinsTheWords(s, sep);
    if Canonical(s, sep) {
      CollapseNothing(s, sep);
      TrimNothing(s, sep);
    }
  }

  lemma {:induction false} RemoveNothing(s: string, drop: char -> bool)
    requires forall c :: c in s ==> !drop(c)
    ensures Remove(s, drop) == s
  {
    if s != "" {
      RemoveNothing(s[..|s| - 1], drop);
      assert s == s[..|s| - 1] + [s[|s| - 1]];
    }
  }

  lemma CanonicalCharacters(s: string, sep: char)
    requires Canonical(s, sep)
    ensures forall c :: c in s ==> IsAlnum(c) || c == sep
  {
  }

  /** Slugs are canonical and slugifying twice is slugifying once. */
  lemma SlugifyIsCanonical(value: string, nfd: string -> string, lower: string -> string)
    requires forall s :: Canonical(s, '-') ==> nfd(s) == s && lower(s) == s
    ensures var slug := Slugify(value, nfd, lower);
            Canonical(slug, '-') && Slugify(slug, nfd, lower) == slug
  {
    var slug := Slugify(value, nfd, lower);
    SegmentJoinsTheWords(lower(Remove(nfd(value), c => IsCombiningDiacritic(c))), '-');
    CanonicalCharacters(slug, '-');
    RemoveNothing(slug, c => IsCombiningDiacritic(c));
    FixedPoints(slug, '-');
  }

  /** The same for catalog names. */
  lemma PlainIsCanonical(value: string, casefold: string -> string, nfkd: string -> string, combining: char -> bool)
    requires forall s :: Canonical(s, ' ') ==> casefold(s) == s && nfkd(s) == s
    requires forall c :: IsAlnum(c) || c == ' ' ==> !combining(c)
    ensures var plain := Plain(value, casefold, nfkd, combining);
            Canonical(plain, ' ') && Plain(plain, casefold, nfkd, combining) == plain
  {
    var plain := Plain(value, casefold, nfkd, combining);
    SegmentJoinsTheWords(Remove(nfkd(casefold(value)), combining), ' ');
    CanonicalCharacters(plain, ' ');
    RemoveNothing(plain, combining);
    FixedPoints(plain, ' ');
  }

  // ---------------------------------------------------------------------
  // The characters, and worked examples.
  // ---------------------------------------------------------------------

  lemma AlphanumericCharacters(c: char)
    ensures IsAlnum(c) <==> c in "abcdefghijklmnopqrstuvwxyz0123456789"
  {
  }

  /** The block of combining diacritical marks, from its first code to its last. */
  lemma CombiningBlock(c: char)
    ensures IsCombiningDiacritic(c) <==> 0x2ff < c as int < 0x370
  {
  }

  /** Remove keeps exactly the other characters, in order. */
  lemma {:induction false} RemoveConcat(a: string, b: string, drop: char -> bool)
    ensures Remove(a + b, drop) == Remove(a, drop) + Remove(b, drop)
  {
    if b == "" {
      assert a + b == a;
    } else {
      var n := |b| - 1;
      assert (a + b)[..|a| + n] == a + b[..n] && (a + b)[|a| + n] == b[n];
      RemoveConcat(a, b[..n], drop);
    }
  }

  lemma RemoveOne(c: char, drop: char -> bool)
    ensures Remove([c], drop) == if drop(c) then "" else [c]
  {
    assert [c][..0] == "" && Remove("", drop) == "";
  }

  lemma RemoveSecond(a: char, mark: char, rest: string, drop: char -> bool)
    requires drop(mark) && !drop(a)
    ensures Remove([a, mark] + rest, drop) == [a] + Remove(rest, drop)
  {
    RemoveConcat([a, mark], rest, drop);
    assert [a, mark] == [a] + [mark];
    RemoveConcat([a], [mark], drop);
    RemoveOne(a, drop);
    RemoveOne(mark, drop);
    hide Remove;
  }

  /** "É Y" becomes "e-y": accents go, capitals fall, everything else separates. */
  lemma AnAccentedSlug(nfd: string -> string, lower: string -> string)
    requires nfd("\U{C9} Y") == "E\U{301} Y" && lower("E Y") == "e y"
    ensures Slugify("\U{C9} Y", nfd, lower) == "e-y"
  {
    var drop := c => IsCombiningDiacritic(c);
    RemoveSecond('E', '\U{301}', " Y", drop);
    RemoveNothing(" Y", drop);
    assert ['E', '\U{301}'] + " Y" == "E\U{301} Y" && ['E'] + " Y" == "E Y";
    SegmentJoinsTheWords("e y", '-');
    TwoWords("e y", '-');
    hide Segment, Remove, Words, Join;
  }

  /** "Nó" and its plain catalog spelling. */
  lemma AnAccentedName(casefold: string -> string, nfkd: string -> string, combining: char -> bool)
    requires casefold("N\U{F3}") == "n\U{F3}" && nfkd("n\U{F3}") == "no\U{301}"
    requires combining('\U{301}') && !combining('n') && !combining('o')
    ensures Plain("N\U{F3}", casefold, nfkd, combining) == "no"
  {
    RemoveConcat("n", "o\U{301}", combining);
    RemoveOne('n', combining);
    RemoveSecond('o', '\U{301}', "", combining);
    assert "n" + "o\U{301}" == "no\U{301}" && ['o', '\U{301}'] + "" == "o\U{301}" && Remove("", combining) == "";
    assert "n" + (['o'] + "") == "no";
    assert Canonical("no", ' ');
    FixedPoints("no", ' ');
    hide Segment, Remove;
  }

  lemma TwoWords(s: string, sep: char)
    requires s == "e y"
    ensures Join(Words(s), sep) == ['e', sep, 'y']
  {
    assert s[..0] == "" && s[..1] == "e" && s[..2] == "e ";
    assert Words(s[..1]) == ["e"];
    assert Words(s[..2]) == ["e"];
    assert Words(s) == ["e", "y"];
    assert ["e", "y"][..1] == ["e"];
    assert Join(["e"], sep) == "e";
  }
}
