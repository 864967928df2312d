/** The parts of java.lang.String and of Spring's StringUtils that the token
    validator and the key manager rely on, stated over `seq<char>`
    (a Dafny `char` is a Unicode scalar value, so a string is modelled as a
    sequence of scalar values and a lone UTF-16 surrogate cannot occur; no
    case folding beyond ASCII). */
module JavaStrings {
  import opened Wrappers

  /** Character.isWhitespace: the Unicode space separators other than the
      non-breaking ones, plus the ASCII control characters Java lists. */
  predicate IsWhitespace(c: char) {
    || c == ' ' || c == '\t' || c == '\n' || c == '\U{000B}' || c == '\U{000C}' || c == '\r'
    || ('\U{001C}' <= c <= '\U{001F}')
    || c == '\U{1680}' || ('\U{2000}' <= c <= '\U{2006}') || ('\U{2008}' <= c <= '\U{200A}')
    || c == '\U{2028}' || c == '\U{2029}' || c == '\U{205F}' || c == '\U{3000}'
  }

  /** StringUtils.hasText: not null, and some character is not whitespace. */
  predicate HasText(s: Option<string>)
    ensures HasText(s) ==> s.Some? && s.value != []
    ensures s.Some? ==> (HasText(s) <==> exists c :: c in s.value && !IsWhitespace(c))
  {
    s.Some? && exists i :: 0 <= i < |s.value| && !IsWhitespace(s.value[i])
  }

  /** A string holding a character that is not whitespace has text. */
  lemma HasTextWitness(s: string, i: int)
    requires 0 <= i < |s| && !IsWhitespace(s[i])
    ensures HasText(Some(s))
  {
  }

  /** The text `"" + s` gives in Java: a null reference prints as "null". */
  function Stringify(s: Option<string>): string {
    match s
    case None => "null"
    case Some(t) => t
  }

  /** ASCII upper-casing; every other character is its own upper case. */
  function ToUpper(c: char): char {
    if 'a' <= c <= 'z' then (c as int - 32) as char else c
  }

  function UpperCase(s: string): (u: string)
    ensures |u| == |s| && forall i :: 0 <= i < |s| ==> u[i] == ToUpper(s[i])
  {
    seq(|s|, i requires 0 <= i < |s| => ToUpper(s[i]))
  }

  /** String.equalsIgnoreCase on a non-null argument: same length, and each
      pair of characters equal or equal once upper-cased. */
  predicate EqualsIgnoreCase(a: string, b: string) {
    |a| == |b| && forall i :: 0 <= i < |a| ==> a[i] == b[i] || ToUpper(a[i]) == ToUpper(b[i])
  }

  /** Ignoring case is the same as comparing the upper-cased strings, so it is
      an equivalence relation. */
  lemma EqualsIgnoreCaseIsUpperCaseEquality(a: string, b: string)
    ensures EqualsIgnoreCase(a, b) <==> UpperCase(a) == UpperCase(b)
  {
    if UpperCase(a) == UpperCase(b) {
      assert |a| == |UpperCase(a)|;
      forall i | 0 <= i < |a| ensures ToUpper(a[i]) == ToUpper(b[i]) {
        assert UpperCase(a)[i] == UpperCase(b)[i];
      }
    }
  }

  /** String.lastIndexOf(char): the last position holding `c`, or -1. */
  function LastIndexOf(s: string, c: char): (r: int)
    ensures -1 <= r < |s|
    ensures r == -1 <==> c !in s
    ensures 0 <= r ==> s[r] == c && c !in s[r + 1..]
  {
    if s == [] then -1
    else if s[|s| - 1] == c then |s| - 1
    else
      var r := LastIndexOf(s[..|s| - 1], c);
      assert s == s[..|s| - 1] + [s[|s| - 1]];
      assert r >= 0 ==> s[r + 1..] == s[..|s| - 1][r + 1..] + [s[|s| - 1]];
      r
  }

  /** `s.substring(s.lastIndexOf(c) + 1)`: what follows the last `c`, or the
      whole of `s` when it holds no `c`. */
  function AfterLast(s: string, c: char): (r: string)
    ensures |r| <= |s| && r == s[|s| - |r|..]
    ensures c !in r
    ensures c !in s ==> r == s
    ensures |r| < |s| ==> s[|s| - |r| - 1] == c
  {
    s[LastIndexOf(s, c) + 1..]
  }

  /** Taking what follows the last `c` a second time changes nothing. */
  lemma AfterLastIdempotent(s: string, c: char)
    ensures AfterLast(AfterLast(s, c), c) == AfterLast(s, c)
  {
  }

  /** With a namespace written in front, what follows the last separator is the
      bare identifier, however many separators the namespace holds. */
  lemma {:induction false} AfterLastOfQualified(ns: string, id: string, c: char)
    requires c !in id
    ensures AfterLast(ns + [c] + id, c) == id
  {
    LastIndexOfQualified(ns, id, c);
    assert (ns + [c] + id)[|ns| + 1..] == id;
  }

  lemma {:induction false} LastIndexOfQualified(ns: string, id: string, c: char)
    requires c !in id
    ensures LastIndexOf(ns + [c] + id, c) == |ns|
  {
    var s := ns + [c] + id;
    if id != [] {
      var shorter := id[..|id| - 1];
      assert s[|s| - 1] == id[|id| - 1];
      assert s[..|s| - 1] == ns + [c] + shorter;
      LastIndexOfQualified(ns, shorter, c);
    }
  }

  /** String.join("", lines). */
  function Concat(lines: seq<string>): string {
    if lines == [] then [] else Concat(lines[..|lines| - 1]) + lines[|lines| - 1]
  }

  lemma {:induction false} ConcatAppend(a: seq<string>, b: seq<string>)
    ensures Concat(a + b) == Concat(a) + Concat(b)
  {
    if b == [] {
      assert a + b == a;
    } else {
      assert (a + b)[..|a + b| - 1] == a + b[..|b| - 1];
      ConcatAppend(a, b[..|b| - 1]);
    }
  }

  /** A first and a last line around the others join to that line, the
      others joined, and the last line. */
  lemma ConcatFramed(first: string, lines: seq<string>, last: string)
    ensures Concat([first] + lines + [last]) == first + Concat(lines) + last
  {
    ConcatAppend([first] + lines, [last]);
    ConcatAppend([first], lines);
    assert [first][..0] == [];
    assert [last][..0] == [];
  }

  /** Joined lines hold a character only if one of the lines does. */
  lemma {:induction false} ConcatChars(lines: seq<string>, c: char)
    requires forall i :: 0 <= i < |lines| ==> c !in lines[i]
    ensures c !in Concat(lines)
  {
    if lines != [] {
      ConcatChars(lines[..|lines| - 1], c);
    }
  }

  /** Every piece between separators, empty ones included: the first step of
      String.split. */
  function SplitAll(s: string, sep: char): (pieces: seq<string>)
    ensures |pieces| >= 1
    ensures forall i :: 0 <= i < |pieces| ==> sep !in pieces[i]
    ensures sep !in s ==> pieces == [s]
  {
    if s == [] then [[]]
    else
      var rest := SplitAll(s[1..], sep);
      if s[0] == sep then [[]] + rest
      else
        assert sep !in s[1..] ==> rest == [s[1..]] && [s[0]] + s[1..] == s;
        [[s[0]] + rest[0]] + rest[1..]
  }

  /** The pieces written back with the separator between them. */
  function Join(pieces: seq<string>, sep: char): string
    requires |pieces| >= 1
  {
    if |pieces| == 1 then pieces[0] else pieces[0] + [sep] + Join(pieces[1..], sep)
  }

  /** Splitting and joining again gives back the string. */
  lemma {:induction false} JoinSplit(s: string, sep: char)
    ensures Join(SplitAll(s, sep), sep) == s
  {
    if s != [] {
      var rest := SplitAll(s[1..], sep);
      JoinSplit(s[1..], sep);
      if s[0] == sep {
        assert SplitAll(s, sep)[1..] == rest;
      } else {
        var p := SplitAll(s, sep);
        if |rest| == 1 {
          assert p == [[s[0]] + rest[0]];
        } else {
          assert p[1..] == rest[1..];
          assert Join(rest, sep) == rest[0] + [sep] + Join(rest[1..], sep);
        }
      }
    }
  }

  /** A piece free of separators followed by a separator is split off first. */
  lemma {:induction false} SplitAllLeading(a: string, y: string, sep: char)
    requires sep !in a
    ensures SplitAll(a + [sep] + y, sep) == [a] + SplitAll(y, sep)
  {
    if a == [] {
      assert a + [sep] + y == [sep] + y;
      assert ([sep] + y)[1..] == y;
    } else {
      SplitAllLeading(a[1..], y, sep);
      assert (a + [sep] + y)[1..] == a[1..] + [sep] + y;
      assert [a[0]] + a[1..] == a;
    }
  }

  /** Splitting a non-empty sequence of separator-free pieces joined by the
      separator gives back exactly those pieces. */
  lemma {:induction false} SplitJoin(pieces: seq<string>, sep: char)
    requires |pieces| >= 1
    requires forall i :: 0 <= i < |pieces| ==> sep !in pieces[i]
    ensures SplitAll(Join(pieces, sep), sep) == pieces
  {
    if |pieces| > 1 {
      SplitJoin(pieces[1..], sep);
      SplitAllLeading(pieces[0], Join(pieces[1..], sep), sep);
      assert [pieces[0]] + pieces[1..] == pieces;
    }
  }

  /** The trailing empty pieces removed, as String.split does with a zero limit. */
  function DropTrailingEmpty(pieces: seq<string>): (r: seq<string>)
    ensures r <= pieces
    ensures forall i :: |r| <= i < |pieces| ==> pieces[i] == []
    ensures r == [] || r[|r| - 1] != []
  {
    if pieces != [] && pieces[|pieces| - 1] == [] then DropTrailingEmpty(pieces[..|pieces| - 1])
    else pieces
  }

  /** More than `n` pieces survive exactly when a piece at index `n` or later
      is not empty. */
  lemma DropTrailingEmptyLonger(pieces: seq<string>, n: nat)
    ensures |DropTrailingEmpty(pieces)| > n <==> exists j :: n <= j < |pieces| && pieces[j] != []
  {
    var r := DropTrailingEmpty(pieces);
    if |r| > n {
      assert pieces[|r| - 1] == r[|r| - 1];
    }
  }

  /** `s.split(regex)` for a regex that matches exactly the one character
      `sep`: a string with no separator comes back whole (so "" gives [""]);
      otherwise every piece, with the trailing empty ones dropped. */
  function JavaSplit(s: string, sep: char): (r: seq<string>)
    ensures sep !in s ==> r == [s]
    ensures forall i :: 0 <= i < |r| ==> sep !in r[i]
    ensures sep in s ==> r <= SplitAll(s, sep)
    ensures sep in s ==> forall i :: |r| <= i < |SplitAll(s, sep)| ==> SplitAll(s, sep)[i] == []
    ensures sep in s ==> r == [] || r[|r| - 1] != []
  {
    if sep !in s then [s] else DropTrailingEmpty(SplitAll(s, sep))
  }

  /** Cutting at the first separators peels off the pieces before them. */
  lemma SplitAllFirstThree(a: string, b: string, c: string, rest: string, sep: char)
    requires sep !in a && sep !in b && sep !in c
    ensures SplitAll(a + [sep] + (b + [sep] + (c + [sep] + rest)), sep) == [a, b, c] + SplitAll(rest, sep)
  {
    SplitAllLeading(c, rest, sep);
    SplitAllLeading(b, c + [sep] + rest, sep);
    SplitAllLeading(a, b + [sep] + (c + [sep] + rest), sep);
  }

  /** `(a + sep + b + sep + c + sep + rest).split(sep)` begins with a, b and
      c whenever c is not empty or `rest` holds something other than
      separators; whatever `rest` holds beyond that only adds pieces. */
  lemma JavaSplitFirstThree(a: string, b: string, c: string, rest: string, sep: char)
    requires sep !in a && sep !in b && sep !in c
    requires c != [] || exists i :: 0 <= i < |rest| && rest[i] != sep
    ensures var pieces := JavaSplit(a + [sep] + (b + [sep] + (c + [sep] + rest)), sep);
      |pieces| >= 3 && pieces[..3] == [a, b, c]
  {
    var t := a + [sep] + (b + [sep] + (c + [sep] + rest));
    assert t[|a|] == sep;
    SplitAllFirstThree(a, b, c, rest, sep);
    var tail := SplitAll(rest, sep);
    var all := [a, b, c] + tail;
    if c == [] {
      JoinSplit(rest, sep);
      JoinHasNonSeparator(tail, sep);
      var k :| 0 <= k < |tail| && tail[k] != [];
      assert all[k + 3] != [];
    } else {
      assert all[2] != [];
    }
    DropTrailingEmptyLonger(all, 2);
  }

  /** With exactly three pieces and a non-empty last one, the split gives
      those three pieces. */
  lemma JavaSplitThree(a: string, b: string, c: string, sep: char)
    requires sep !in a && sep !in b && sep !in c && c != []
    ensures JavaSplit(a + [sep] + (b + [sep] + c), sep) == [a, b, c]
  {
    var t := a + [sep] + (b + [sep] + c);
    assert t[|a|] == sep;
    SplitAllThree(a, b, c, sep);
    assert [a, b, c][2] != [];
  }

  lemma SplitAllThree(a: string, b: string, c: string, sep: char)
    requires sep !in a && sep !in b && sep !in c
    ensures SplitAll(a + [sep] + (b + [sep] + c), sep) == [a, b, c]
  {
    SplitAllLeading(b, c, sep);
    SplitAllLeading(a, b + [sep] + c, sep);
  }

  /** A trailing separator leaves an empty last piece, which the split drops:
      "a.b." gives at most two pieces. */
  lemma JavaSplitTrailingSeparator(a: string, b: string, sep: char)
    requires sep !in a && sep !in b
    ensures JavaSplit(a + [sep] + (b + [sep]), sep) == DropTrailingEmpty([a, b])
  {
    var t := a + [sep] + (b + [sep]);
    assert t[|a|] == sep;
    SplitAllTrailingSeparator(a, b, sep);
    assert [a, b, []][..2] == [a, b];
  }

  lemma SplitAllTrailingSeparator(a: string, b: string, sep: char)
    requires sep !in a && sep !in b
    ensures SplitAll(a + [sep] + (b + [sep]), sep) == [a, b, []]
  {
    SplitAllLeading(b, [], sep);
    assert b + [sep] + [] == b + [sep];
    SplitAllLeading(a, b + [sep], sep);
  }

  /** Join distributes over a split of the piece list. */
  lemma {:induction false} JoinAppend(p: seq<string>, q: seq<string>, sep: char)
    requires |p| >= 1 && |q| >= 1
    ensures Join(p + q, sep) == Join(p, sep) + [sep] + Join(q, sep)
  {
    if |p| > 1 {
      JoinAppend(p[1..], q, sep);
      assert (p + q)[1..] == p[1..] + q;
    } else {
      assert (p + q)[1..] == q;
    }
  }

  /** Joined separator-free pieces hold a character other than the separator
      exactly when some piece is not empty. */
  lemma JoinHasNonSeparator(pieces: seq<string>, sep: char)
    requires |pieces| >= 1
    requires forall i :: 0 <= i < |pieces| ==> sep !in pieces[i]
    ensures (exists i :: 0 <= i < |Join(pieces, sep)| && Join(pieces, sep)[i] != sep)
        <==> (exists j :: 0 <= j < |pieces| && pieces[j] != [])
  {
    var s := Join(pieces, sep);
    if exists i :: 0 <= i < |s| && s[i] != sep {
      var i :| 0 <= i < |s| && s[i] != sep;
      NonSeparatorFromPiece(pieces, sep, i);
    }
    if exists j :: 0 <= j < |pieces| && pieces[j] != [] {
      var j :| 0 <= j < |pieces| && pieces[j] != [];
      PieceShowsInJoin(pieces, sep, j);
    }
  }

  lemma {:induction false} NonSeparatorFromPiece(pieces: seq<string>, sep: char, i: int)
    requires |pieces| >= 1
    requires 0 <= i < |Join(pieces, sep)| && Join(pieces, sep)[i] != sep
    ensures exists j :: 0 <= j < |pieces| && pieces[j] != []
  {
    if |pieces| == 1 {
      assert pieces[0] != [];
    } else {
      var t := Join(pieces[1..], sep);
      var h := pieces[0];
      if i < |h| {
        assert h != [];
      } else {
        assert Join(pieces, sep)[i] == ([sep] + t)[i - |h|];
        assert i > |h|;
        assert t[i - |h| - 1] == Join(pieces, sep)[i];
        NonSeparatorFromPiece(pieces[1..], sep, i - |h| - 1);
        var j :| 0 <= j < |pieces[1..]| && pieces[1..][j] != [];
        assert pieces[j + 1] != [];
      }
    }
  }

  lemma {:induction false} PieceShowsInJoin(pieces: seq<string>, sep: char, j: int)
    requires |pieces| >= 1
    requires forall i :: 0 <= i < |pieces| ==> sep !in pieces[i]
    requires 0 <= j < |pieces| && pieces[j] != []
    ensures exists i :: 0 <= i < |Join(pieces, sep)| && Join(pieces, sep)[i] != sep
  {
    var s := Join(pieces, sep);
    if j == 0 {
      assert pieces[0][0] != sep;
      if |pieces| == 1 {
        assert s[0] == pieces[0][0];
      } else {
        assert s[0] == pieces[0][0];
      }
    } else {
      var t := Join(pieces[1..], sep);
      assert pieces[1..][j - 1] == pieces[j];
      PieceShowsInJoin(pieces[1..], sep, j - 1);
      var i :| 0 <= i < |t| && t[i] != sep;
      assert s == pieces[0] + [sep] + t;
      assert s[|pieces[0]| + 1 + i] == t[i];
    }
  }
}
