/** The string cleaning `KeyManager.loadPublicKey` applies before base64
    decoding: `replaceAll("(-+BEGIN PUBLIC KEY-+)", "")`, then
    `replaceAll("(-+END PUBLIC KEY-+)", "")`, then `replaceAll("[\\r\\n]+", "")`.
    Each `replaceAll` is one left-to-right pass that removes every match it
    finds and resumes after it; `-+` is greedy. */
module Pem {

  const BEGIN_MARKER: string := "BEGIN PUBLIC KEY"
  const END_MARKER: string := "END PUBLIC KEY"

  function Dashes(n: nat): (s: string)
    ensures |s| == n && forall i :: 0 <= i < n ==> s[i] == '-'
  {
    seq(n, _ => '-')
  }

  /** The number of dashes `s` starts with. */
  function DashRun(s: string): (n: nat)
    ensures n <= |s|
    ensures forall i :: 0 <= i < n ==> s[i] == '-'
    ensures n < |s| ==> s[n] != '-'
  {
    if s != [] && s[0] == '-' then 1 + DashRun(s[1..]) else 0
  }

  /** The length of the match of `-+word-+` that starts at the first character
      of `s`, or 0 when there is none. Greedy dashes cannot give back a dash to
      the word, so the leading run is taken whole. */
  function MatchLength(s: string, word: string): (n: nat)
    ensures n <= |s|
    ensures n > 0 ==> DashRun(s) > 0 && word <= s[DashRun(s)..]
  {
    var lead := DashRun(s);
    if lead > 0 && word <= s[lead..] then
      var trail := DashRun(s[lead + |word|..]);
      if trail > 0 then lead + |word| + trail else 0
    else 0
  }

  /** `s.replaceAll("(-+" + word + "-+)", "")` for a word with no dash. */
  function RemoveRuns(s: string, word: string): (r: string)
    ensures |r| <= |s|
    ensures forall c :: c in r ==> c in s
    ensures MatchLength(s, word) > 0 ==> |r| <= |s| - MatchLength(s, word)
    decreases |s|
  {
    if s == [] then []
    else
      var n := MatchLength(s, word);
      if n > 0 then
        var r := RemoveRuns(s[n..], word);
        assert forall c :: c in s[n..] ==> c in s;
        r
      else
        var r := RemoveRuns(s[1..], word);
        assert forall c :: c in s[1..] ==> c in s;
        [s[0]] + r
  }

  /** `s.replaceAll("[\\r\\n]+", "")`: every carriage return and line feed goes. */
  function RemoveLineBreaks(s: string): (r: string)
    ensures '\r' !in r && '\n' !in r
    ensures '\r' !in s && '\n' !in s ==> r == s
  {
    if s == [] then []
    else (if s[0] == '\r' || s[0] == '\n' then [] else [s[0]]) + RemoveLineBreaks(s[1..])
  }

  /** The cleaned key text handed to the base64 decoder. */
  function Clean(key: string): (cleaned: string)
    ensures '\r' !in cleaned && '\n' !in cleaned
  {
    RemoveLineBreaks(RemoveRuns(RemoveRuns(key, BEGIN_MARKER), END_MARKER))
  }

  /** Text without dashes is never part of a match: spaces, tabs and every
      other character before the first dash are kept as they are. */
  lemma {:induction false} RemoveRunsKeepsDashFree(p: string, q: string, word: string)
    requires '-' !in p
    ensures RemoveRuns(p + q, word) == p + RemoveRuns(q, word)
  {
    if p != [] {
      var s := p + q;
      assert s[0] == p[0] && p[0] in p;
      RemoveRunsStep(s, word);
      assert s[1..] == p[1..] + q;
      assert '-' !in p[1..] by {
        assert forall i :: 1 <= i < |p| ==> p[1..][i - 1] == p[i];
      }
      RemoveRunsKeepsDashFree(p[1..], q, word);
      ConsAppend(p, RemoveRuns(q, word));
    } else {
      assert p + q == q;
    }
  }

  /** No match starts at a character other than a dash. */
  lemma RemoveRunsStep(s: string, word: string)
    requires s != [] && s[0] != '-'
    ensures RemoveRuns(s, word) == [s[0]] + RemoveRuns(s[1..], word)
  {
    assert DashRun(s) == 0;
  }

  lemma ConsAppend(p: string, r: string)
    requires p != []
    ensures [p[0]] + (p[1..] + r) == p + r
  {
    assert [p[0]] + p[1..] == p;
  }

  lemma {:induction false} DashRunOf(d: nat, rest: string)
    requires rest == [] || rest[0] != '-'
    ensures DashRun(Dashes(d) + rest) == d
  {
    if d > 0 {
      var s := Dashes(d) + rest;
      assert s[0] == '-';
      assert s[1..] == Dashes(d - 1) + rest;
      DashRunOf(d - 1, rest);
    } else {
      assert Dashes(d) + rest == rest;
    }
  }

  /** A whole run `-+word-+` at the front is removed, its dashes included. */
  lemma RemoveRunsDropsRun(d: nat, word: string, e: nat, q: string)
    requires d > 0 && e > 0
    requires word != [] && word[0] != '-'
    requires q == [] || q[0] != '-'
    ensures RemoveRuns(Dashes(d) + word + Dashes(e) + q, word) == RemoveRuns(q, word)
  {
    var s := Dashes(d) + word + Dashes(e) + q;
    MatchLengthOfRun(d, word, e, q);
    assert s[d + |word| + e..] == q;
  }

  lemma MatchLengthOfRun(d: nat, word: string, e: nat, q: string)
    requires d > 0 && e > 0
    requires word != [] && word[0] != '-'
    requires q == [] || q[0] != '-'
    ensures MatchLength(Dashes(d) + word + Dashes(e) + q, word) == d + |word| + e
  {
    Nest4(Dashes(d), word, Dashes(e), q);
    MatchLengthAfterWord(d, word, Dashes(e) + q);
    DashRunOf(e, q);
  }

  lemma Nest4(a: string, b: string, c: string, d: string)
    ensures a + b + c + d == a + (b + (c + d))
  {
  }

  /** A match at a run of `d` dashes and the word extends over the dashes
      that follow the word, if there are any. */
  lemma MatchLengthAfterWord(d: nat, word: string, rest: string)
    requires d > 0 && word != [] && word[0] != '-'
    ensures MatchLength(Dashes(d) + (word + rest), word) == if DashRun(rest) > 0 then d + |word| + DashRun(rest) else 0
  {
    var tail := word + rest;
    var s := Dashes(d) + tail;
    assert tail[0] == word[0];
    DashRunOf(d, tail);
    assert s[d..] == tail;
    assert word <= tail;
    assert s[d + |word|..] == rest;
  }

  /** A prefix of `t` holds only characters of `t`. */
  lemma PrefixChars(w: string, t: string, c: char)
    ensures w <= t && c in w ==> c in t
  {
    if w <= t && c in w {
      var k :| 0 <= k < |w| && w[k] == c;
      assert t[k] == c;
    }
  }

  /** A string lacking one of the word's characters holds no run to remove. */
  lemma {:induction false} RemoveRunsWithoutWord(s: string, word: string, c: char)
    requires c in word && c !in s
    ensures RemoveRuns(s, word) == s
  {
    if s != [] {
      var lead := DashRun(s);
      assert c !in s[lead..] by {
        assert forall i :: lead <= i < |s| ==> s[lead..][i - lead] == s[i];
      }
      PrefixChars(word, s[lead..], c);
      assert MatchLength(s, word) == 0;
      assert c !in s[1..] by {
        assert forall i :: 1 <= i < |s| ==> s[1..][i - 1] == s[i];
      }
      RemoveRunsWithoutWord(s[1..], word, c);
      assert [s[0]] + s[1..] == s;
    }
  }

  lemma BeginMarkerChars()
    ensures BEGIN_MARKER[0] == 'B' && 'G' in BEGIN_MARKER
  {
    assert BEGIN_MARKER[2] == 'G';
  }

  lemma EndMarkerChars()
    ensures END_MARKER[0] == 'E' && 'G' !in END_MARKER && '-' !in END_MARKER
    ensures '\r' !in END_MARKER && '\n' !in END_MARKER
  {
  }

  lemma NotInAround(c: char, d: nat, w: string, e: nat)
    requires c != '-' && c !in w
    ensures c !in Dashes(d) + w + Dashes(e)
  {
  }

  /** The header pass removes the header line and keeps the body and footer. */
  lemma CleanHeader(d1: nat, e1: nat, b: string, footer: string)
    requires d1 > 0 && e1 > 0
    requires b != [] && '-' !in b
    requires 'G' !in footer
    ensures RemoveRuns(Dashes(d1) + BEGIN_MARKER + Dashes(e1) + (b + footer), BEGIN_MARKER) == b + footer
  {
    BeginMarkerChars();
    assert (b + footer)[0] == b[0] && b[0] in b;
    RemoveRunsDropsRun(d1, BEGIN_MARKER, e1, b + footer);
    RemoveRunsKeepsDashFree(b, footer, BEGIN_MARKER);
    RemoveRunsWithoutWord(footer, BEGIN_MARKER, 'G');
  }

  /** The footer pass removes the footer line and keeps the body. */
  lemma CleanFooter(b: string, d2: nat, e2: nat)
    requires d2 > 0 && e2 > 0
    requires '-' !in b
    ensures RemoveRuns(b + (Dashes(d2) + END_MARKER + Dashes(e2)), END_MARKER) == b
  {
    EndMarkerChars();
    RemoveRunsKeepsDashFree(b, Dashes(d2) + END_MARKER + Dashes(e2), END_MARKER);
    assert Dashes(d2) + END_MARKER + Dashes(e2) == Dashes(d2) + END_MARKER + Dashes(e2) + [];
    RemoveRunsDropsRun(d2, END_MARKER, e2, []);
  }

  /** Text with no dash and no line break, spaces and tabs included, comes
      through cleaning unchanged. */
  lemma CleanKeepsPlainText(s: string)
    requires '-' !in s && '\r' !in s && '\n' !in s
    ensures Clean(s) == s
  {
    RemoveRunsKeepsDashFree(s, [], BEGIN_MARKER);
    RemoveRunsKeepsDashFree(s, [], END_MARKER);
    assert s + [] == s;
  }

  /** A key in the canonical layout, a header line and a footer line of dashes
      around the markers, with a base64 body between them that holds no dash
      and no line break, cleans to exactly its body. */
  lemma CleanCanonical(d1: nat, e1: nat, b: string, d2: nat, e2: nat)
    requires d1 > 0 && e1 > 0 && d2 > 0 && e2 > 0
    requires b != []
    requires '-' !in b && '\r' !in b && '\n' !in b
    ensures Clean(Dashes(d1) + BEGIN_MARKER + Dashes(e1) + b + Dashes(d2) + END_MARKER + Dashes(e2)) == b
  {
    var footer := Dashes(d2) + END_MARKER + Dashes(e2);
    assert Dashes(d1) + BEGIN_MARKER + Dashes(e1) + b + Dashes(d2) + END_MARKER + Dashes(e2)
        == Dashes(d1) + BEGIN_MARKER + Dashes(e1) + (b + footer);
    EndMarkerChars();
    NotInAround('G', d2, END_MARKER, e2);
    CleanHeader(d1, e1, b, footer);
    CleanFooter(b, d2, e2);
  }

  /** With an empty body the header's trailing dashes run straight into the
      footer's leading ones (`m` dashes in all), so the header pass swallows
      them and the footer's word and trailing dashes survive the footer pass. */
  lemma CleanEmptyBody(d: nat, m: nat, e: nat)
    requires d > 0 && m > 0 && e > 0
    ensures Clean(Dashes(d) + BEGIN_MARKER + Dashes(m) + (END_MARKER + Dashes(e))) == END_MARKER + Dashes(e)
  {
    EmptyBodyHeaderPass(d, m, e);
    EmptyBodyFooterPass(e);
    NoLineBreaksAfterMarker(e);
  }

  lemma NoLineBreaksAfterMarker(e: nat)
    ensures '\r' !in END_MARKER + Dashes(e) && '\n' !in END_MARKER + Dashes(e)
  {
    EndMarkerChars();
  }

  lemma EmptyBodyHeaderPass(d: nat, e: nat, e2: nat)
    requires d > 0 && e > 0
    ensures RemoveRuns(Dashes(d) + BEGIN_MARKER + Dashes(e) + (END_MARKER + Dashes(e2)), BEGIN_MARKER)
         == END_MARKER + Dashes(e2)
  {
    var tail := END_MARKER + Dashes(e2);
    BeginMarkerChars();
    EndMarkerChars();
    assert tail[0] == 'E';
    RemoveRunsDropsRun(d, BEGIN_MARKER, e, tail);
    NotInAround('G', 0, END_MARKER, e2);
    assert Dashes(0) + END_MARKER + Dashes(e2) == tail;
    RemoveRunsWithoutWord(tail, BEGIN_MARKER, 'G');
  }

  lemma EmptyBodyFooterPass(e2: nat)
    ensures RemoveRuns(END_MARKER + Dashes(e2), END_MARKER) == END_MARKER + Dashes(e2)
  {
    EndMarkerChars();
    RemoveRunsKeepsDashFree(END_MARKER, Dashes(e2), END_MARKER);
    RemoveRunsWithoutWord(Dashes(e2), END_MARKER, 'E');
  }

  /** One pass can glue the text around a removed run into a new run, which
      that pass leaves in place. With `x` = "BEG" and `y` = "IN PUBLIC KEY",
      "-BEG-BEGIN PUBLIC KEY-IN PUBLIC KEY-" keeps "-BEGIN PUBLIC KEY-". */
  lemma SinglePassLeavesGluedRun(x: string, y: string)
    requires x != [] && y != [] && '-' !in x && '-' !in y
    ensures var run := Dashes(1) + (x + y) + Dashes(1);
      RemoveRuns(Dashes(1) + (x + (run + (y + Dashes(1)))), x + y) == run
  {
    var w := x + y;
    var run := Dashes(1) + w + Dashes(1);
    GluedFront(x, y, run + (y + Dashes(1)));
    GluedRest(x, y);
    Reassociate(Dashes(1), x, y, Dashes(1));
  }

  lemma Reassociate(a: string, x: string, y: string, b: string)
    ensures a + x + (y + b) == a + (x + y) + b
  {
  }

  lemma GluedFront(x: string, y: string, rest: string)
    requires x != [] && y != [] && '-' !in x && '-' !in y
    requires rest != [] && rest[0] == '-'
    ensures RemoveRuns(Dashes(1) + (x + rest), x + y) == Dashes(1) + x + RemoveRuns(rest, x + y)
  {
    var s := Dashes(1) + (x + rest);
    GapStopsMatch(x, y, rest);
    assert s[1..] == x + rest;
    RemoveRunsKeepsDashFree(x, rest, x + y);
  }

  /** A dash in the middle of the word's place means no match there. */
  lemma GapStopsMatch(x: string, y: string, rest: string)
    requires x != [] && y != [] && '-' !in x && '-' !in y
    requires rest != [] && rest[0] == '-'
    ensures MatchLength(Dashes(1) + (x + rest), x + y) == 0
  {
    var w := x + y;
    var s := Dashes(1) + (x + rest);
    var t := x + rest;
    assert x[0] in x;
    assert t[0] == x[0];
    DashRunOf(1, t);
    assert s[1..] == t;
    assert t[|x|] == '-';
    assert y[0] in y;
    assert w[|x|] == y[0];
    assert !(w <= t);
  }

  lemma GluedRest(x: string, y: string)
    requires x != [] && y != [] && '-' !in x && '-' !in y
    ensures RemoveRuns(Dashes(1) + (x + y) + Dashes(1) + (y + Dashes(1)), x + y) == y + Dashes(1)
  {
    var w := x + y;
    assert x[0] in x && w[0] == x[0];
    assert y[0] in y && (y + Dashes(1))[0] == y[0];
    RemoveRunsDropsRun(1, w, 1, y + Dashes(1));
    RemoveRunsKeepsDashFree(y, Dashes(1), w);
    assert w[0] in w;
    RemoveRunsWithoutWord(Dashes(1), w, w[0]);
  }
}
