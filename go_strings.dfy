/**
  The Go string helpers the /proc/net/dev parser relies on, as pure functions on
  `seq<char>`: `strings.Split` with a one-character separator, `strings.Fields`,
  `strings.TrimLeft` with a one-character cutset, and `Split(s, -1)` of the
  regular expression `[ :] *` (one space or colon, then a greedy run of spaces).
*/
module GoStrings {

  /** The characters `unicode.IsSpace` accepts. */
  const WhiteSpace: set<char> :=
    {'\t', '\n', '\U{B}', '\U{C}', '\r', ' ', '\U{85}', '\U{A0}', '\U{1680}',
     '\U{2000}', '\U{2001}', '\U{2002}', '\U{2003}', '\U{2004}', '\U{2005}',
     '\U{2006}', '\U{2007}', '\U{2008}', '\U{2009}', '\U{200A}',
     '\U{2028}', '\U{2029}', '\U{202F}', '\U{205F}', '\U{3000}'}

  /** The characters that begin a match of the regular expression `[ :] *`. */
  const FieldSeparators: set<char> := {' ', ':'}

  /** No character of `s` belongs to `cs`. */
  predicate NoneOf(s: string, cs: set<char>)
  {
    forall j :: 0 <= j < |s| ==> s[j] !in cs
  }

  /** `k` copies of the space character. */
  function Spaces(k: nat): (s: string)
    ensures |s| == k && forall j :: 0 <= j < k ==> s[j] == ' '
  {
    seq(k, _ => ' ')
  }

  /** The first index of a character of `cs` in `s`, or `|s|` when there is none. */
  function IndexOfAny(s: string, cs: set<char>): (i: nat)
    ensures i <= |s|
    ensures i < |s| ==> s[i] in cs
  {
    if s == [] || s[0] in cs then 0 else 1 + IndexOfAny(s[1..], cs)
  }

  /** No character before `IndexOfAny` is in `cs`. */
  lemma {:induction false} IndexOfAnySkips(s: string, cs: set<char>)
    ensures forall j :: 0 <= j < IndexOfAny(s, cs) ==> s[j] !in cs
  {
    if s != [] && s[0] !in cs {
      IndexOfAnySkips(s[1..], cs);
      forall j | 1 <= j < IndexOfAny(s, cs) ensures s[j] !in cs {
        assert s[j] == s[1..][j - 1];
      }
    }
  }

  /** `IndexOfAny` is determined by these two properties. */
  lemma {:induction false} IndexOfAnyAt(s: string, cs: set<char>, i: nat)
    requires i <= |s| && (forall j :: 0 <= j < i ==> s[j] !in cs) && (i < |s| ==> s[i] in cs)
    ensures IndexOfAny(s, cs) == i
  {
    if i > 0 {
      assert s[0] !in cs;
      forall j | 0 <= j < i - 1 ensures s[1..][j] !in cs {
        assert s[1..][j] == s[j + 1];
      }
      IndexOfAnyAt(s[1..], cs, i - 1);
    }
  }

  /** `strings.Join(parts, string(sep))`. */
  function Join(parts: seq<string>, sep: char): string
  {
    if |parts| == 0 then ""
    else if |parts| == 1 then parts[0]
    else parts[0] + [sep] + Join(parts[1..], sep)
  }

  /** Parts that avoid a set of characters, joined by a separator outside that
      set, give a string that avoids the set too. */
  lemma JoinNoneOf(parts: seq<string>, sep: char, cs: set<char>)
    requires sep !in cs
    requires forall i :: 0 <= i < |parts| ==> NoneOf(parts[i], cs)
    ensures NoneOf(Join(parts, sep), cs)
  {
    if |parts| > 1 {
      JoinNoneOf(parts[1..], sep, cs);
      var rest := Join(parts[1..], sep);
      var s := parts[0] + [sep] + rest;
      forall j | 0 <= j < |s| ensures s[j] !in cs {
        if j < |parts[0]| { assert s[j] == parts[0][j]; }
        else if j > |parts[0]| { assert s[j] == rest[j - |parts[0]| - 1]; }
      }
    }
  }

  // ---------------------------------------------------------------------------
  // strings.Split

  /** `strings.Split(s, string(sep))`: the pieces of `s` between occurrences of
      `sep`. The empty string yields `[""]`. */
  function Split(s: string, sep: char): (parts: seq<string>)
    ensures |parts| >= 1
    decreases |s|
  {
    var i := IndexOfAny(s, {sep});
    if i == |s| then [s]
    else [s[..i]] + Split(s[i + 1..], sep)
  }

  /** The empty string splits into one empty piece. */
  lemma SplitEmpty(sep: char)
    ensures Split("", sep) == [""]
  {
  }

  /** No piece holds the separator. */
  lemma {:induction false} SplitPiecesFree(s: string, sep: char)
    ensures forall i :: 0 <= i < |Split(s, sep)| ==> sep !in Split(s, sep)[i]
    decreases |s|
  {
    var i := IndexOfAny(s, {sep});
    IndexOfAnySkips(s, {sep});
    var head := s[..i];
    assert forall j :: 0 <= j < |head| ==> head[j] == s[j] != sep;
    if i < |s| {
      var tail := s[i + 1..];
      SplitPiecesFree(tail, sep);
      var parts := [head] + Split(tail, sep);
      assert Split(s, sep) == parts;
      assert forall k :: 1 <= k < |parts| ==> parts[k] == Split(tail, sep)[k - 1];
    } else {
      assert head == s;
    }
  }

  /** Joining the pieces back with the separator gives the string that was split. */
  lemma {:induction false} SplitJoinsBack(s: string, sep: char)
    ensures Join(Split(s, sep), sep) == s
    decreases |s|
  {
    var i := IndexOfAny(s, {sep});
    if i < |s| {
      var head, tail := s[..i], s[i + 1..];
      SplitJoinsBack(tail, sep);
      var parts := [head] + Split(tail, sep);
      assert Split(s, sep) == parts;
      assert parts[0] == head && parts[1..] == Split(tail, sep);
      assert Join(parts, sep) == head + [sep] + Join(Split(tail, sep), sep);
      assert s == head + [sep] + tail;
    } else {
      assert s[..i] == s;
    }
  }

  /** The number of pieces is one more than the number of separators. */
  lemma {:induction false} SplitCount(s: string, sep: char)
    ensures |Split(s, sep)| == multiset(s)[sep] + 1
    decreases |s|
  {
    var i := IndexOfAny(s, {sep});
    IndexOfAnySkips(s, {sep});
    if i == |s| {
      CountAbsent(s, sep);
    } else {
      SplitCount(s[i + 1..], sep);
      CountAfterFirst(s, sep, i);
    }
  }

  lemma CountAbsent(s: string, c: char)
    requires forall j :: 0 <= j < |s| ==> s[j] != c
    ensures multiset(s)[c] == 0
  {
    assert c !in s;
  }

  /** Counting `c` in a string whose first `c` sits at `i`. */
  lemma CountAfterFirst(s: string, c: char, i: nat)
    requires i < |s| && s[i] == c
    requires forall j :: 0 <= j < i ==> s[j] != c
    ensures multiset(s)[c] == multiset(s[i + 1..])[c] + 1
  {
    var head, tail := s[..i], s[i + 1..];
    CountAbsent(head, c);
    assert s == head + [c] + tail;
    assert multiset(s) == multiset(head) + multiset{c} + multiset(tail);
  }

  /** Splitting a join of separator-free parts gives the parts back. */
  lemma {:induction false} SplitJoin(parts: seq<string>, sep: char)
    requires |parts| >= 1
    requires forall i :: 0 <= i < |parts| ==> sep !in parts[i]
    ensures Split(Join(parts, sep), sep) == parts
  {
    var s := Join(parts, sep);
    if |parts| == 1 {
      IndexOfAnyAt(s, {sep}, |s|);
    } else {
      var p := parts[0];
      var rest := Join(parts[1..], sep);
      assert s == p + [sep] + rest;
      assert s[..|p|] == p;
      IndexOfAnyAt(s, {sep}, |p|);
      assert s[|p| + 1..] == rest;
      SplitJoin(parts[1..], sep);
    }
  }

  // ---------------------------------------------------------------------------
  // strings.TrimLeft

  /** `strings.TrimLeft(s, string(c))`: `s` without its leading run of `c`. */
  function TrimLeft(s: string, c: char): (r: string)
    ensures |r| <= |s|
    ensures r == [] || r[0] != c
  {
    if s != [] && s[0] == c then TrimLeft(s[1..], c) else s
  }

  /** What `TrimLeft` removes is a run of `c`, and what it keeps is the rest of
      the string. */
  lemma {:induction false} TrimLeftSuffix(s: string, c: char)
    ensures TrimLeft(s, c) == s[|s| - |TrimLeft(s, c)|..]
    ensures forall j :: 0 <= j < |s| - |TrimLeft(s, c)| ==> s[j] == c
  {
    if s != [] && s[0] == c {
      TrimLeftSuffix(s[1..], c);
    }
  }

  /** Conversely, cutting a run of `c` off the front of a string that then starts
      with another character is what `TrimLeft` does. */
  lemma {:induction false} TrimLeftOf(run: string, rest: string, c: char)
    requires forall j :: 0 <= j < |run| ==> run[j] == c
    requires rest == [] || rest[0] != c
    ensures TrimLeft(run + rest, c) == rest
  {
    if run == [] {
      assert run + rest == rest;
    } else {
      assert (run + rest)[1..] == run[1..] + rest;
      TrimLeftOf(run[1..], rest, c);
    }
  }

  // ---------------------------------------------------------------------------
  // strings.Fields

  /** `s` without its leading white space. */
  function SkipWhiteSpace(s: string): (r: string)
    ensures |r| <= |s|
    ensures r == [] || r[0] !in WhiteSpace
  {
    if s != [] && s[0] in WhiteSpace then SkipWhiteSpace(s[1..]) else s
  }

  /** Skipping a run of white space before a string that does not start with
      white space leaves that string. */
  lemma {:induction false} SkipWhiteSpaceOf(run: string, rest: string)
    requires forall j :: 0 <= j < |run| ==> run[j] in WhiteSpace
    requires rest == [] || rest[0] !in WhiteSpace
    ensures SkipWhiteSpace(run + rest) == rest
  {
    if run == [] {
      assert run + rest == rest;
    } else {
      assert (run + rest)[1..] == run[1..] + rest;
      SkipWhiteSpaceOf(run[1..], rest);
    }
  }

  /** `strings.Fields(s)`: the maximal runs of non-white-space characters of `s`,
      in order; white space only (or nothing) gives no fields. */
  function Fields(s: string): seq<string>
    decreases |s|
  {
    var t := SkipWhiteSpace(s);
    if t == [] then []
    else
      var len := IndexOfAny(t, WhiteSpace);
      [t[..len]] + Fields(t[len..])
  }

  /** Every field is non-empty and holds no white space. */
  lemma {:induction false} FieldsAreWords(s: string)
    ensures forall i :: 0 <= i < |Fields(s)| ==> Fields(s)[i] != [] && NoneOf(Fields(s)[i], WhiteSpace)
    decreases |s|
  {
    var t := SkipWhiteSpace(s);
    if t != [] {
      var len := IndexOfAny(t, WhiteSpace);
      IndexOfAnySkips(t, WhiteSpace);
      FieldsAreWords(t[len..]);
    }
  }

  /** Leading white space does not change the fields. */
  lemma {:induction false} FieldsSkipsWhiteSpace(w: string, s: string)
    requires forall j :: 0 <= j < |w| ==> w[j] in WhiteSpace
    ensures SkipWhiteSpace(w + s) == SkipWhiteSpace(s)
    ensures Fields(w + s) == Fields(s)
  {
    if w != [] {
      assert (w + s)[0] == w[0];
      assert (w + s)[1..] == w[1..] + s;
      FieldsSkipsWhiteSpace(w[1..], s);
    } else {
      assert w + s == s;
    }
  }

  /** A word followed by white space or nothing is the first field. */
  lemma FieldsCons(f: string, after: string)
    requires f != [] && NoneOf(f, WhiteSpace)
    requires after == [] || after[0] in WhiteSpace
    ensures Fields(f + after) == [f] + Fields(after)
  {
    var s := f + after;
    assert forall j :: 0 <= j < |f| ==> s[j] == f[j];
    SkipWhiteSpaceOf([], s);
    assert [] + s == s;
    IndexOfAnyAt(s, WhiteSpace, |f|);
    assert s[..|f|] == f && s[|f|..] == after;
  }

  /** Fields joined by single spaces are split back into the same fields. */
  lemma {:induction false} FieldsJoin(fields: seq<string>)
    requires forall i :: 0 <= i < |fields| ==> fields[i] != [] && NoneOf(fields[i], WhiteSpace)
    ensures Fields(Join(fields, ' ')) == fields
  {
    if |fields| == 1 {
      FieldsCons(fields[0], "");
      assert fields[0] + "" == fields[0];
    } else if |fields| > 1 {
      var rest := Join(fields[1..], ' ');
      assert Join(fields, ' ') == fields[0] + ([' '] + rest);
      FieldsCons(fields[0], [' '] + rest);
      FieldsSkipsWhiteSpace([' '], rest);
      FieldsJoin(fields[1..]);
      assert fields == [fields[0]] + fields[1..];
    }
  }

  // ---------------------------------------------------------------------------
  // regexp.MustCompile("[ :] *").Split(s, -1)

  /** `Split(s, -1)` of the regular expression `[ :] *`. Every match starts with a
      space or a colon and swallows the spaces after it; the pieces between the
      matches are returned, including an empty piece before a leading match or
      after a trailing one, and the empty string yields `[""]`. */
  function SplitFieldSep(s: string): (parts: seq<string>)
    ensures |parts| >= 1
    decreases |s|
  {
    var i := IndexOfAny(s, FieldSeparators);
    if i == |s| then
      assert s[..i] == s;
      [s]
    else
      [s[..i]] + SplitFieldSep(TrimLeft(s[i + 1..], ' '))
  }

  /** No piece holds a space or a colon. */
  lemma {:induction false} SplitFieldSepPieces(s: string)
    ensures forall i :: 0 <= i < |SplitFieldSep(s)| ==> NoneOf(SplitFieldSep(s)[i], FieldSeparators)
    decreases |s|
  {
    IndexOfAnySkips(s, FieldSeparators);
    var i := IndexOfAny(s, FieldSeparators);
    if i < |s| {
      SplitFieldSepPieces(TrimLeft(s[i + 1..], ' '));
    }
  }

  /** One step of the splitter: a piece, one separator character and any run of
      spaces are cut off, and splitting goes on after the spaces. */
  lemma SplitFieldSepStep(piece: string, c: char, k: nat, rest: string)
    requires NoneOf(piece, FieldSeparators) && c in FieldSeparators
    requires rest == [] || rest[0] != ' '
    ensures SplitFieldSep(piece + [c] + Spaces(k) + rest) == [piece] + SplitFieldSep(rest)
  {
    var after := Spaces(k) + rest;
    var s := piece + ([c] + after);
    assert piece + [c] + Spaces(k) + rest == s;
    var n := |piece|;
    assert forall j :: 0 <= j < n ==> s[j] == piece[j];
    assert s[n] == c;
    IndexOfAnyAt(s, FieldSeparators, n);
    assert s[..n] == piece && s[n + 1..] == after;
    TrimLeftOf(Spaces(k), rest, ' ');
    assert SplitFieldSep(s) == [s[..n]] + SplitFieldSep(TrimLeft(s[n + 1..], ' '));
  }

  /** Pieces joined by colons are split back into the same pieces, empty ones
      included. */
  lemma {:induction false} SplitFieldSepJoinColons(parts: seq<string>)
    requires |parts| >= 1
    requires forall i :: 0 <= i < |parts| ==> NoneOf(parts[i], FieldSeparators)
    ensures SplitFieldSep(Join(parts, ':')) == parts
  {
    var s := Join(parts, ':');
    if |parts| == 1 {
      IndexOfAnyAt(s, FieldSeparators, |s|);
    } else {
      var rest := Join(parts[1..], ':');
      JoinNoneOf(parts[1..], ':', {' '});
      assert rest == [] || rest[0] != ' ';
      assert s == parts[0] + [':'] + Spaces(0) + rest;
      SplitFieldSepStep(parts[0], ':', 0, rest);
      SplitFieldSepJoinColons(parts[1..]);
    }
  }

  /** Non-empty pieces joined by single spaces are split back into the same pieces. */
  lemma {:induction false} SplitFieldSepJoinSpaces(parts: seq<string>)
    requires |parts| >= 1
    requires forall i :: 0 <= i < |parts| ==> parts[i] != [] && NoneOf(parts[i], FieldSeparators)
    ensures SplitFieldSep(Join(parts, ' ')) == parts
  {
    var s := Join(parts, ' ');
    if |parts| == 1 {
      IndexOfAnyAt(s, FieldSeparators, |s|);
    } else {
      var rest := Join(parts[1..], ' ');
      assert rest == [] || rest[0] != ' ' by {
        if |parts| == 2 { assert rest == parts[1]; }
        else { assert rest[0] == parts[1][0]; }
      }
      assert s == parts[0] + [' '] + Spaces(0) + rest;
      SplitFieldSepStep(parts[0], ' ', 0, rest);
      SplitFieldSepJoinSpaces(parts[1..]);
    }
  }
}
