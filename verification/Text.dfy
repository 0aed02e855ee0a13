/** Splitting text at a separator, as split() does in Python and in ECMA-262. */
module Text {

  /** The parts of a text that continues with c. */
  function Extend(parts: seq<string>, c: char, sep: char): (more: seq<string>)
    requires parts != []
    ensures more != []
  {
    if c == sep then parts + [""] else parts[..|parts| - 1] + [parts[|parts| - 1] + [c]]
  }

  function Split(s: string, sep: char): (parts: seq<string>)
    ensures parts != []
  {
    if s == "" then [""] else Extend(Split(s[..|s| - 1], sep), s[|s| - 1], sep)
  }

  lemma {:induction false} SplitNothing(s: string, sep: char)
    requires sep !in s
    ensures Split(s, sep) == [s]
  {
    if s != "" {
      var n := |s| - 1;
      var rest, c := s[..n], s[n];
      assert s == rest + [c];
      SplitNothing(rest, sep);
      ExtendOne(rest, c, sep);
      assert Split(s, sep) == Extend(Split(rest, sep), c, sep);
      hide Split, Extend;
    }
  }

  lemma ExtendOne(x: string, c: char, sep: char)
    requires c != sep
    ensures Extend([x], c, sep) == [x + [c]]
  {
    assert [x][..0] == [];
  }

  lemma {:induction false} SplitAppend(head: string, last: string, sep: char)
    requires sep !in last
    ensures Split(head + [sep] + last, sep) == Split(head, sep) + [last]
  {
    var s := head + [sep] + last;
    if last == "" {
      assert s[..|s| - 1] == head;
    } else {
      var shorter := last[..|last| - 1];
      assert s[..|s| - 1] == head + [sep] + shorter;
      SplitAppend(head, shorter, sep);
      assert last == shorter + [last[|last| - 1]];
    }
  }

  lemma SplitSnoc(s: string, c: char, sep: char)
    ensures Split(s + [c], sep) == Extend(Split(s, sep), c, sep)
  {
    assert (s + [c])[..|s|] == s;
  }

  lemma {:induction false} SplitFirst(first: string, rest: string, sep: char)
    requires sep !in first
    ensures Split(first + [sep] + rest, sep) == [first] + Split(rest, sep)
  {
    if rest == "" {
      SplitSnoc(first, sep, sep);
      SplitNothing(first, sep);
      assert first + [sep] + rest == first + [sep];
    } else {
      hide Split, Extend;
      var shorter, c := rest[..|rest| - 1], rest[|rest| - 1];
      SplitFirst(first, shorter, sep);
      SplitSnoc(first + [sep] + shorter, c, sep);
      SplitSnoc(shorter, c, sep);
      LastOfThree(first, sep, shorter, c);
      assert rest == shorter + [c];
      ExtendAfter(first, Split(shorter, sep), c, sep);
    }
  }

  lemma LastOfThree(first: string, sep: char, rest: string, c: char)
    ensures first + [sep] + (rest + [c]) == (first + [sep] + rest) + [c]
  {
  }

  lemma ExtendAfter(first: string, parts: seq<string>, c: char, sep: char)
    requires parts != []
    ensures Extend([first] + parts, c, sep) == [first] + Extend(parts, c, sep)
  {
    assert ([first] + parts)[..|parts|] == [first] + parts[..|parts| - 1];
  }

  /** The first part keeps any start of the text that has no separator. */
  lemma {:induction false} SplitKeepsStart(start: string, rest: string, sep: char)
    requires sep !in start
    ensures start <= Split(start + rest, sep)[0]
    ensures rest == "" ==> Split(start + rest, sep) == [start]
  {
    var s := start + rest;
    if rest == "" {
      assert s == start;
      SplitNothing(start, sep);
    } else {
      assert s[..|s| - 1] == start + rest[..|rest| - 1];
      SplitKeepsStart(start, rest[..|rest| - 1], sep);
    }
  }

  function JoinAll(parts: seq<string>, sep: char): string
    requires parts != []
  {
    if |parts| == 1 then parts[0] else JoinAll(parts[..|parts| - 1], sep) + [sep] + parts[|parts| - 1]
  }

  lemma JoinExtended(parts: seq<string>, c: char, sep: char)
    requires parts != []
    ensures JoinAll(Extend(parts, c, sep), sep) == JoinAll(parts, sep) + [c]
  {
    var more, n := Extend(parts, c, sep), |parts| - 1;
    if c == sep {
      assert more[..|parts|] == parts;
      assert JoinAll(parts, sep) + [sep] + "" == JoinAll(parts, sep) + [sep];
    } else if n > 0 {
      assert more[..n] == parts[..n];
    }
  }

  /** Splitting loses nothing: the parts have no separator, and joined by it they are the text. */
  lemma {:induction false} SplitIsInverse(s: string, sep: char)
    ensures JoinAll(Split(s, sep), sep) == s
    ensures forall i :: 0 <= i < |Split(s, sep)| ==> sep !in Split(s, sep)[i]
  {
    if s != "" {
      var n := |s| - 1;
      SplitIsInverse(s[..n], sep);
      JoinExtended(Split(s[..n], sep), s[n], sep);
      assert s == s[..n] + [s[n]];
    }
  }
}
