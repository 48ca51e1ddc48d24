/**
  String helpers shared by the parser, the editor and the search code.

  Whitespace is the horizontal whitespace the source trims with
  `.whitespaces`, narrowed to space and tab; case mapping and the letter
  test are ASCII only; line splitting is on '\n' only.
 */
module Text {

  // ---------------------------------------------------------------------
  // Characters

  predicate IsBlank(c: char) { c == ' ' || c == '\t' }

  predicate IsAsciiLetter(c: char) { ('a' <= c <= 'z') || ('A' <= c <= 'Z') }

  function LowerChar(c: char): char
  {
    if 'A' <= c <= 'Z' then (c as int + 32) as char else c
  }

  function UpperChar(c: char): char
  {
    if 'a' <= c <= 'z' then (c as int - 32) as char else c
  }

  function Lower(s: string): (r: string)
    ensures |r| == |s|
    ensures forall i :: 0 <= i < |s| ==> r[i] == LowerChar(s[i])
  {
    seq(|s|, i requires 0 <= i < |s| => LowerChar(s[i]))
  }

  function Upper(s: string): (r: string)
    ensures |r| == |s|
    ensures forall i :: 0 <= i < |s| ==> r[i] == UpperChar(s[i])
  {
    seq(|s|, i requires 0 <= i < |s| => UpperChar(s[i]))
  }

  // ---------------------------------------------------------------------
  // Prefixes, suffixes, infixes

  predicate StartsWith(s: string, p: string) { |p| <= |s| && s[..|p|] == p }

  predicate EndsWith(s: string, p: string) { |p| <= |s| && s[|s| - |p|..] == p }

  /** A prefix test fails as soon as one position differs. */
  lemma NotStartsWithAt(s: string, p: string, i: nat)
    requires i < |p| && (i >= |s| || s[i] != p[i])
    ensures !StartsWith(s, p)
  {
    if |p| <= |s| { assert s[..|p|][i] == s[i]; }
  }

  /** `sub` occurs somewhere in `s` (the empty string occurs everywhere). */
  predicate Contains(s: string, sub: string)
    decreases |s|
  {
    StartsWith(s, sub) || (|s| > 0 && Contains(s[1..], sub))
  }

  lemma {:induction false} ContainsAt(s: string, sub: string, i: nat)
    requires i + |sub| <= |s| && s[i..i + |sub|] == sub
    ensures Contains(s, sub)
    decreases i
  {
    if i == 0 {
      assert s[..|sub|] == s[i..i + |sub|];
    } else {
      assert s[1..][i - 1..i - 1 + |sub|] == s[i..i + |sub|];
      ContainsAt(s[1..], sub, i - 1);
    }
  }

  lemma {:induction false} ContainsWitness(s: string, sub: string) returns (i: nat)
    requires Contains(s, sub)
    ensures i + |sub| <= |s| && s[i..i + |sub|] == sub
    decreases |s|
  {
    if StartsWith(s, sub) {
      i := 0;
    } else {
      var j := ContainsWitness(s[1..], sub);
      assert s[1..][j..j + |sub|] == s[j + 1..j + 1 + |sub|];
      i := j + 1;
    }
  }

  /** A one-character infix is plain membership. */
  lemma ContainsChar(s: string, c: char)
    ensures Contains(s, [c]) <==> c in s
  {
    if c in s {
      var i :| 0 <= i < |s| && s[i] == c;
      assert s[i..i + 1] == [c];
      ContainsAt(s, [c], i);
    }
    if Contains(s, [c]) {
      var i := ContainsWitness(s, [c]);
      assert s[i] == s[i..i + 1][0];
    }
  }

  /** If a longer string occurs, so does each of its prefixes. */
  lemma ContainsPrefixOf(s: string, sub: string, p: string)
    requires Contains(s, sub) && StartsWith(sub, p)
    ensures Contains(s, p)
  {
    var i := ContainsWitness(s, sub);
    assert s[i..i + |p|] == sub[..|p|];
    ContainsAt(s, p, i);
  }

  // ---------------------------------------------------------------------
  // Trimming of spaces and tabs

  function TrimStart(s: string): (r: string)
    ensures |r| <= |s| && r == s[|s| - |r|..]
    ensures r == [] || !IsBlank(r[0])
    ensures forall i :: 0 <= i < |s| - |r| ==> IsBlank(s[i])
  {
    if |s| > 0 && IsBlank(s[0]) then TrimStart(s[1..]) else s
  }

  function TrimEnd(s: string): (r: string)
    ensures |r| <= |s| && r == s[..|r|]
    ensures r == [] || !IsBlank(r[|r| - 1])
    ensures forall i :: |r| <= i < |s| ==> IsBlank(s[i])
  {
    if |s| > 0 && IsBlank(s[|s| - 1]) then TrimEnd(s[..|s| - 1]) else s
  }

  /** The source's `trimmingCharacters(in: .whitespaces)`. */
  function Trim(s: string): string
  {
    TrimEnd(TrimStart(s))
  }

  predicate HasEdgeBlank(s: string)
  {
    |s| > 0 && (IsBlank(s[0]) || IsBlank(s[|s| - 1]))
  }

  /** Trimming leaves no blank at either end, and gives "" exactly when the
      input is all blanks. */
  lemma TrimSpec(s: string)
    ensures !HasEdgeBlank(Trim(s))
    ensures Trim(s) == "" <==> forall i :: 0 <= i < |s| ==> IsBlank(s[i])
  {
    var t := TrimStart(s);
    var r := TrimEnd(t);
    if r == "" {
      assert |t| == 0;
    }
  }

  /** Trimming only removes characters. */
  lemma TrimKeepsChars(s: string)
    ensures forall c :: c in Trim(s) ==> c in s
  {
    var t := TrimStart(s);
    assert forall c :: c in TrimEnd(t) ==> c in t;
    assert forall c :: c in t ==> c in s;
  }

  lemma TrimNoEdgeBlank(s: string)
    requires !HasEdgeBlank(s)
    ensures Trim(s) == s
  {
  }

  /** Leading blanks are dropped by `TrimStart` whatever follows them. */
  lemma {:induction false} TrimStartBlankPrefix(pre: string, u: string)
    requires forall i :: 0 <= i < |pre| ==> IsBlank(pre[i])
    ensures TrimStart(pre + u) == TrimStart(u)
    decreases |pre|
  {
    if |pre| > 0 {
      assert (pre + u)[0] == pre[0] && (pre + u)[1..] == pre[1..] + u;
      TrimStartBlankPrefix(pre[1..], u);
    } else {
      assert pre + u == u;
    }
  }

  /** Trailing blanks are dropped by `TrimEnd` whatever precedes them. */
  lemma {:induction false} TrimEndBlankSuffix(u: string, post: string)
    requires forall i :: 0 <= i < |post| ==> IsBlank(post[i])
    ensures TrimEnd(u + post) == TrimEnd(u)
    decreases |post|
  {
    if |post| > 0 {
      var x := u + post;
      assert x[|x| - 1] == post[|post| - 1] && x[..|x| - 1] == u + post[..|post| - 1];
      TrimEndBlankSuffix(u, post[..|post| - 1]);
    } else {
      assert u + post == u;
    }
  }

  /** Blanks around a text with no blank at its edges are all removed. */
  lemma TrimBlankEdges(pre: string, s: string, post: string)
    requires forall i :: 0 <= i < |pre| ==> IsBlank(pre[i])
    requires forall i :: 0 <= i < |post| ==> IsBlank(post[i])
    requires s != "" && !HasEdgeBlank(s)
    ensures Trim(pre + s + post) == s
  {
    assert pre + s + post == pre + (s + post);
    TrimStartBlankPrefix(pre, s + post);
    assert TrimStart(s + post) == s + post by {
      assert (s + post)[0] == s[0];
    }
    TrimEndBlankSuffix(s, post);
  }

  lemma TrimIdempotent(s: string)
    ensures Trim(Trim(s)) == Trim(s)
  {
    TrimSpec(s);
  }

  // ---------------------------------------------------------------------
  // First occurrence of a character

  /** Index of the first `c` in `s`, or `|s|` when there is none. */
  function FirstIndex(s: string, c: char): (i: nat)
    ensures i <= |s|
    ensures c !in s[..i]
    ensures i < |s| ==> s[i] == c
    ensures i == |s| <==> c !in s
  {
    if |s| == 0 then 0
    else if s[0] == c then 0
    else
      var j := FirstIndex(s[1..], c);
      assert s[..j + 1] == [s[0]] + s[1..][..j];
      j + 1
  }

  /** The first `c` of `a + [c] + b` is the one after `a` when `a` has none. */
  lemma FirstIndexAfter(a: string, c: char, b: string)
    requires c !in a
    ensures FirstIndex(a + [c] + b, c) == |a|
  {
    var s := a + [c] + b;
    var i := FirstIndex(s, c);
    assert s[..|a|] == a && s[|a|] == c;
  }

  /** Number of characters of `s` that are in `cs`. */
  function CountOf(s: string, cs: set<char>): (n: nat)
    ensures n <= |s|
  {
    if |s| == 0 then 0
    else CountOf(s[..|s| - 1], cs) + (if s[|s| - 1] in cs then 1 else 0)
  }

  lemma {:induction false} CountOfNone(s: string, cs: set<char>)
    requires forall i :: 0 <= i < |s| ==> s[i] !in cs
    ensures CountOf(s, cs) == 0
    decreases |s|
  {
    if |s| > 0 { CountOfNone(s[..|s| - 1], cs); }
  }

  lemma {:induction false} CountOfAppend(a: string, b: string, cs: set<char>)
    ensures CountOf(a + b, cs) == CountOf(a, cs) + CountOf(b, cs)
    decreases |b|
  {
    if |b| > 0 {
      assert (a + b)[..|a + b| - 1] == a + b[..|b| - 1];
      CountOfAppend(a, b[..|b| - 1], cs);
    } else {
      assert a + b == a;
    }
  }

  // ---------------------------------------------------------------------
  // Literal replacement, left to right, non-overlapping

  /** The source's `replacingOccurrences(of: pat, with: rep)`. */
  function Replace(s: string, pat: string, rep: string): string
    requires |pat| > 0
    decreases |s|
  {
    if |s| == 0 then ""
    else if StartsWith(s, pat) then rep + Replace(s[|pat|..], pat, rep)
    else [s[0]] + Replace(s[1..], pat, rep)
  }

  /** A string that does not hold the pattern's first character is left alone. */
  lemma {:induction false} ReplaceAbsent(s: string, pat: string, rep: string)
    requires |pat| > 0 && pat[0] !in s
    ensures Replace(s, pat, rep) == s
    decreases |s|
  {
    if |s| > 0 {
      if |pat| <= |s| { assert s[..|pat|][0] == s[0]; }
      ReplaceAbsent(s[1..], pat, rep);
    }
  }

  /** A prefix that does not hold the pattern's first character is kept as
      it is, and the replacement carries on after it. */
  lemma {:induction false} ReplaceKeepsPrefix(a: string, b: string, pat: string, rep: string)
    requires |pat| > 0 && pat[0] !in a
    ensures Replace(a + b, pat, rep) == a + Replace(b, pat, rep)
    decreases |a|
  {
    if |a| > 0 {
      var s := a + b;
      assert s[0] == a[0] && s[1..] == a[1..] + b;
      if |pat| <= |s| { assert s[..|pat|][0] == s[0]; }
      ReplaceKeepsPrefix(a[1..], b, pat, rep);
      assert a == [a[0]] + a[1..];
    } else {
      assert a + b == b;
    }
  }

  /** An occurrence at the front is replaced, and the scan resumes after it. */
  lemma ReplaceAtFront(pat: string, b: string, rep: string)
    requires |pat| > 0
    ensures Replace(pat + b, pat, rep) == rep + Replace(b, pat, rep)
  {
    var s := pat + b;
    assert s[..|pat|] == pat && s[|pat|..] == b;
  }

  /** Parts joined with a separator text. */
  function JoinText(parts: seq<string>, sep: string): string
  {
    if |parts| == 0 then ""
    else if |parts| == 1 then parts[0]
    else parts[0] + sep + JoinText(parts[1..], sep)
  }

  /** The specification of `Replace`: a text made of parts that do not hold
      the pattern's first character, separated by the pattern, becomes the
      same parts separated by the replacement. Every occurrence is replaced
      and the text between occurrences is kept. */
  lemma {:induction false} ReplaceJoin(parts: seq<string>, pat: string, rep: string)
    requires |pat| > 0
    requires forall i :: 0 <= i < |parts| ==> pat[0] !in parts[i]
    ensures Replace(JoinText(parts, pat), pat, rep) == JoinText(parts, rep)
    decreases |parts|
  {
    if |parts| == 1 {
      ReplaceAbsent(parts[0], pat, rep);
    } else if |parts| > 1 {
      var rest := JoinText(parts[1..], pat);
      assert JoinText(parts, pat) == parts[0] + (pat + rest);
      ReplaceKeepsPrefix(parts[0], pat + rest, pat, rep);
      ReplaceAtFront(pat, rest, rep);
      ReplaceJoin(parts[1..], pat, rep);
      assert JoinText(parts, rep) == parts[0] + (rep + JoinText(parts[1..], rep));
    }
  }

  // ---------------------------------------------------------------------
  // Splitting on a separator and joining with it

  /** Foundation's `components(separatedBy:)` for a one-character separator:
      never empty; the text after the last separator, possibly "", is the
      last part. */
  function SplitOn(s: string, sep: char): (r: seq<string>)
    ensures |r| >= 1
  {
    if |s| == 0 then [""]
    else if s[0] == sep then [""] + SplitOn(s[1..], sep)
    else
      var t := SplitOn(s[1..], sep);
      [[s[0]] + t[0]] + t[1..]
  }

  /** `joined(separator:)` for a one-character separator. */
  function JoinWith(ls: seq<string>, sep: char): string
  {
    if |ls| == 0 then ""
    else if |ls| == 1 then ls[0]
    else ls[0] + [sep] + JoinWith(ls[1..], sep)
  }

  predicate Lacks(ls: seq<string>, c: char) { forall i :: 0 <= i < |ls| ==> c !in ls[i] }

  /** Parts never hold the separator. */
  lemma {:induction false} SplitPartsLackSep(s: string, sep: char)
    ensures Lacks(SplitOn(s, sep), sep)
    decreases |s|
  {
    if |s| > 0 {
      SplitPartsLackSep(s[1..], sep);
    }
  }

  lemma {:induction false} SplitWithoutSep(s: string, sep: char)
    requires sep !in s
    ensures SplitOn(s, sep) == [s]
    decreases |s|
  {
    if |s| > 0 {
      SplitWithoutSep(s[1..], sep);
      assert [s[0]] + s[1..] == s;
    }
  }

  /** Splitting distributes over one separator. */
  lemma {:induction false} SplitAround(a: string, b: string, sep: char)
    ensures SplitOn(a + [sep] + b, sep) == SplitOn(a, sep) + SplitOn(b, sep)
    decreases |a|
  {
    var s := a + [sep] + b;
    if |a| == 0 {
      assert s == [sep] + b && s[1..] == b;
    } else {
      assert s[0] == a[0] && s[1..] == a[1..] + [sep] + b;
      SplitAround(a[1..], b, sep);
    }
  }

  /** Three parts without the separator, joined by it, split back into
      those three. */
  lemma SplitThree(a: string, b: string, c: string, sep: char)
    requires sep !in a && sep !in b && sep !in c
    ensures SplitOn(a + [sep] + b + [sep] + c, sep) == [a, b, c]
  {
    assert a + [sep] + b + [sep] + c == a + [sep] + (b + [sep] + c);
    SplitAround(a, b + [sep] + c, sep);
    SplitAround(b, c, sep);
    SplitWithoutSep(a, sep);
    SplitWithoutSep(b, sep);
    SplitWithoutSep(c, sep);
  }

  /** Joining the parts gives the text back exactly. */
  lemma {:induction false} JoinSplit(s: string, sep: char)
    ensures JoinWith(SplitOn(s, sep), sep) == s
    decreases |s|
  {
    if |s| > 0 {
      var t := SplitOn(s[1..], sep);
      JoinSplit(s[1..], sep);
      if s[0] == sep {
        assert SplitOn(s, sep)[1..] == t;
      } else {
        var r := SplitOn(s, sep);
        assert r[1..] == t[1..];
        if |t| > 1 {
          assert JoinWith(t, sep) == t[0] + [sep] + JoinWith(t[1..], sep);
        }
        assert [s[0]] + s[1..] == s;
      }
    }
  }

  lemma {:induction false} JoinAppend(a: seq<string>, b: seq<string>, sep: char)
    requires |a| >= 1 && |b| >= 1
    ensures JoinWith(a + b, sep) == JoinWith(a, sep) + [sep] + JoinWith(b, sep)
    decreases |a|
  {
    if |a| > 1 {
      assert (a + b)[1..] == a[1..] + b;
      JoinAppend(a[1..], b, sep);
    } else {
      assert (a + b)[1..] == b;
    }
  }

  /** The parts of every element, in order. */
  function SplitEach(ls: seq<string>, sep: char): seq<string>
  {
    if |ls| == 0 then [] else SplitOn(ls[0], sep) + SplitEach(ls[1..], sep)
  }

  lemma {:induction false} SplitEachAppend(a: seq<string>, b: seq<string>, sep: char)
    ensures SplitEach(a + b, sep) == SplitEach(a, sep) + SplitEach(b, sep)
    decreases |a|
  {
    if |a| > 0 {
      assert (a + b)[1..] == a[1..] + b;
      SplitEachAppend(a[1..], b, sep);
    } else {
      assert a + b == b;
    }
  }

  lemma {:induction false} SplitEachWithoutSep(ls: seq<string>, sep: char)
    requires Lacks(ls, sep)
    ensures SplitEach(ls, sep) == ls
    decreases |ls|
  {
    if |ls| > 0 {
      SplitWithoutSep(ls[0], sep);
      SplitEachWithoutSep(ls[1..], sep);
    }
  }

  /** Re-splitting a joined sequence splits each element on its own. */
  lemma {:induction false} SplitJoin(ls: seq<string>, sep: char)
    requires |ls| >= 1
    ensures SplitOn(JoinWith(ls, sep), sep) == SplitEach(ls, sep)
    decreases |ls|
  {
    if |ls| == 1 {
      assert SplitEach(ls, sep) == SplitOn(ls[0], sep) + SplitEach([], sep);
    } else {
      SplitAround(ls[0], JoinWith(ls[1..], sep), sep);
      SplitJoin(ls[1..], sep);
    }
  }

  /** Joining parts that hold no separator and splitting again is the identity. */
  lemma SplitJoinParts(ls: seq<string>, sep: char)
    requires |ls| >= 1 && Lacks(ls, sep)
    ensures SplitOn(JoinWith(ls, sep), sep) == ls
  {
    SplitJoin(ls, sep);
    SplitEachWithoutSep(ls, sep);
  }

  // ---------------------------------------------------------------------
  // Lexicographic order on strings, by character code

  predicate LexLess(a: string, b: string)
    decreases |a|
  {
    |b| > 0 && (|a| == 0 || a[0] < b[0] || (a[0] == b[0] && LexLess(a[1..], b[1..])))
  }

  lemma {:induction false} LexLessIrreflexive(a: string)
    ensures !LexLess(a, a)
    decreases |a|
  {
    if |a| > 0 { LexLessIrreflexive(a[1..]); }
  }

  lemma {:induction false} LexLessTransitive(a: string, b: string, c: string)
    requires LexLess(a, b) && LexLess(b, c)
    ensures LexLess(a, c)
    decreases |a|
  {
    if |a| > 0 && a[0] == b[0] && b[0] == c[0] {
      LexLessTransitive(a[1..], b[1..], c[1..]);
    }
  }

  lemma {:induction false} LexLessTotal(a: string, b: string)
    requires a != b
    ensures LexLess(a, b) || LexLess(b, a)
    decreases |a|
  {
    if |a| > 0 && |b| > 0 && a[0] == b[0] {
      assert a == [a[0]] + a[1..] && b == [b[0]] + b[1..];
      LexLessTotal(a[1..], b[1..]);
    }
  }

  lemma LexLessAsymmetric(a: string, b: string)
    requires LexLess(a, b)
    ensures !LexLess(b, a)
  {
    if LexLess(b, a) {
      LexLessTransitive(a, b, a);
      LexLessIrreflexive(a);
    }
  }
}
