/** The Python string operations the transcriber relies on, on ASCII
    character classes: `str.split()`, `str.split(sep)`, `sep.join`,
    `str.strip(chars)`, `str.replace`, `str.startswith`, `lower` and `upper`. */
module Text {

  // ---------------------------------------------------------------------
  // Character classes (the regex classes [A-Za-z], [0-9] and Python's
  // ASCII whitespace)
  // ---------------------------------------------------------------------

  predicate IsUpper(c: char) { 'A' <= c <= 'Z' }
  predicate IsLower(c: char) { 'a' <= c <= 'z' }
  predicate IsLetter(c: char) { IsUpper(c) || IsLower(c) }
  predicate IsDigit(c: char) { '0' <= c <= '9' }
  predicate IsAlnum(c: char) { IsLetter(c) || IsDigit(c) }
  predicate IsSpace(c: char) {
    c == ' ' || c == '\t' || c == '\n' || c == '\r' || c == '\U{B}' || c == '\U{C}'
  }

  predicate NoSpace(w: string) { forall i :: 0 <= i < |w| ==> !IsSpace(w[i]) }
  predicate NoUpper(w: string) { forall i :: 0 <= i < |w| ==> !IsUpper(w[i]) }

  function ToLower(c: char): (r: char)
    ensures IsUpper(c) ==> IsLower(r)
    ensures !IsUpper(c) ==> r == c
  {
    if IsUpper(c) then (c as int + 32) as char else c
  }

  function ToUpper(c: char): (r: char)
    ensures IsLower(c) ==> IsUpper(r)
    ensures !IsLower(c) ==> r == c
  {
    if IsLower(c) then (c as int - 32) as char else c
  }

  /** `s.lower()` restricted to ASCII letters. */
  function Lower(s: string): (r: string)
    ensures |r| == |s| && NoUpper(r)
    ensures forall i :: 0 <= i < |s| ==> r[i] == ToLower(s[i])
  {
    seq(|s|, i requires 0 <= i < |s| => ToLower(s[i]))
  }

  /** `s.upper()` restricted to ASCII letters. */
  function Upper(s: string): (r: string)
    ensures |r| == |s|
    ensures forall i :: 0 <= i < |s| ==> r[i] == ToUpper(s[i])
  {
    seq(|s|, i requires 0 <= i < |s| => ToUpper(s[i]))
  }

  lemma LowerOfLowercase(s: string)
    requires NoUpper(s)
    ensures Lower(s) == s
  {
  }

  // ---------------------------------------------------------------------
  // Prefixes, occurrences and replacement
  // ---------------------------------------------------------------------

  predicate StartsWith(s: string, p: string) {
    |p| <= |s| && s[..|p|] == p
  }

  predicate OccursAt(s: string, pat: string, i: nat) {
    i + |pat| <= |s| && s[i..i + |pat|] == pat
  }

  /** `pat in s` for a non-empty pattern. */
  predicate Occurs(s: string, pat: string) {
    exists i: nat | i <= |s| :: OccursAt(s, pat, i)
  }

  lemma OccursShift(s: string, pat: string, i: nat)
    requires |s| > 0 && OccursAt(s[1..], pat, i)
    ensures OccursAt(s, pat, i + 1)
  {
    assert s[i + 1..i + 1 + |pat|] == s[1..][i..i + |pat|];
  }

  /** `s.replace(pat, rep)`: every non-overlapping occurrence, scanned from the left. */
  function Replace(s: string, pat: string, rep: string): string
    requires pat != []
    decreases |s|
  {
    if |s| < |pat| then s
    else if s[..|pat|] == pat then rep + Replace(s[|pat|..], pat, rep)
    else [s[0]] + Replace(s[1..], pat, rep)
  }

  /** `f` applied to each element, built from the left as a loop that
      appends builds it. */
  function MapLeft<A, B>(f: A -> B, xs: seq<A>): seq<B>
  {
    if xs == [] then [] else MapLeft(f, xs[..|xs| - 1]) + [f(xs[|xs| - 1])]
  }

  lemma {:induction false} MapLeftAt<A, B>(f: A -> B, xs: seq<A>)
    ensures |MapLeft(f, xs)| == |xs|
    ensures forall i :: 0 <= i < |xs| ==> MapLeft(f, xs)[i] == f(xs[i])
  {
    if xs != [] {
      var init := xs[..|xs| - 1];
      MapLeftAt(f, init);
      forall i | 0 <= i < |init|
        ensures init[i] == xs[i]
      {
      }
    }
  }

  /** `re.sub("[0-9]", "", s)`. */
  function RemoveDigits(s: string): (r: string)
    ensures forall i :: 0 <= i < |r| ==> !IsDigit(r[i])
  {
    if s == [] then []
    else if IsDigit(s[0]) then RemoveDigits(s[1..])
    else [s[0]] + RemoveDigits(s[1..])
  }

  /** Removing digits keeps exactly the characters that are not digits. */
  lemma {:induction false} RemoveDigitsChars(s: string)
    ensures forall c :: c in RemoveDigits(s) <==> c in s && !IsDigit(c)
  {
    if s != [] {
      RemoveDigitsChars(s[1..]);
      assert s == [s[0]] + s[1..];
    }
  }

  lemma {:induction false} RemoveDigitsAppend(a: string, b: string)
    ensures RemoveDigits(a + b) == RemoveDigits(a) + RemoveDigits(b)
    decreases |a|
  {
    if a != [] {
      var ab := a + b;
      assert ab[0] == a[0] && ab[1..] == a[1..] + b;
      RemoveDigitsAppend(a[1..], b);
      var tail := RemoveDigits(a[1..]);
      if IsDigit(a[0]) {
        assert RemoveDigits(ab) == RemoveDigits(a[1..] + b);
        assert RemoveDigits(a) == tail;
      } else {
        assert RemoveDigits(ab) == [a[0]] + RemoveDigits(a[1..] + b);
        assert RemoveDigits(a) == [a[0]] + tail;
        assert [a[0]] + (tail + RemoveDigits(b)) == ([a[0]] + tail) + RemoveDigits(b);
      }
    } else {
      assert a + b == b;
    }
  }

  lemma {:induction false} RemoveDigitsNoDigits(s: string)
    requires forall i :: 0 <= i < |s| ==> !IsDigit(s[i])
    ensures RemoveDigits(s) == s
    decreases |s|
  {
    if s != [] {
      RemoveDigitsNoDigits(s[1..]);
    }
  }

  lemma {:induction false} ReplaceAbsent(s: string, pat: string, rep: string)
    requires pat != []
    requires !Occurs(s, pat)
    ensures Replace(s, pat, rep) == s
    decreases |s|
  {
    if |s| >= |pat| {
      assert !OccursAt(s, pat, 0);
      assert s[0..0 + |pat|] == s[..|pat|];
      forall i: nat | OccursAt(s[1..], pat, i)
        ensures false
      {
        OccursShift(s, pat, i);
      }
      ReplaceAbsent(s[1..], pat, rep);
    }
  }

  /** Removing one character with `replace(c, "")` leaves no copy of it. */
  lemma {:induction false} ReplaceCharRemoves(s: string, c: char)
    ensures c !in Replace(s, [c], "")
    ensures forall d :: d != c && d in s ==> d in Replace(s, [c], "")
    ensures forall d :: d in Replace(s, [c], "") ==> d in s
    decreases |s|
  {
    if |s| >= 1 {
      ReplaceCharRemoves(s[1..], c);
      forall d | d != c && d in s
        ensures d in Replace(s, [c], "")
      {
        if d != s[0] {
          assert d in s[1..];
        }
      }
    }
  }

  /** Removing a character distributes over concatenation. */
  lemma {:induction false} ReplaceCharAppend(a: string, b: string, c: char)
    ensures Replace(a + b, [c], "") == Replace(a, [c], "") + Replace(b, [c], "")
    decreases |a|
  {
    if a == [] {
      assert a + b == b;
    } else {
      assert (a + b)[1..] == a[1..] + b;
      ReplaceCharAppend(a[1..], b, c);
    }
  }

  /** Removing a character the string does not hold changes nothing. */
  lemma ReplaceCharAbsent(s: string, c: char)
    requires c !in s
    ensures Replace(s, [c], "") == s
  {
    MissingCharNoOccurrence(s, [c], c);
    ReplaceAbsent(s, [c], "");
  }

  /** A replacement of the same length and with the same characters keeps
      the length and the multiset of characters. */
  lemma {:induction false} ReplacePermutes(s: string, pat: string, rep: string)
    requires pat != [] && multiset(rep) == multiset(pat)
    ensures |Replace(s, pat, rep)| == |s|
    ensures multiset(Replace(s, pat, rep)) == multiset(s)
    decreases |s|
  {
    if |s| >= |pat| {
      if s[..|pat|] == pat {
        ReplacePermutes(s[|pat|..], pat, rep);
        assert |rep| == |multiset(rep)| == |multiset(pat)| == |pat|;
        assert s == s[..|pat|] + s[|pat|..];
      } else {
        ReplacePermutes(s[1..], pat, rep);
        assert s == [s[0]] + s[1..];
      }
    }
  }

  /** A replacement brings in no character that is in neither the string
      nor the replacement. */
  lemma {:induction false} ReplaceChars(s: string, pat: string, rep: string)
    requires pat != []
    ensures forall d :: d in Replace(s, pat, rep) ==> d in s || d in rep
    decreases |s|
  {
    if |s| >= |pat| {
      if s[..|pat|] == pat {
        ReplaceChars(s[|pat|..], pat, rep);
        assert forall d :: d in s[|pat|..] ==> d in s;
      } else {
        ReplaceChars(s[1..], pat, rep);
        assert forall d :: d in s[1..] ==> d in s;
      }
    }
  }

  /** A pattern with a character the string lacks does not occur in it. */
  lemma MissingCharNoOccurrence(s: string, pat: string, c: char)
    requires c in pat && c !in s
    ensures !Occurs(s, pat)
  {
    var k :| 0 <= k < |pat| && pat[k] == c;
    forall i: nat | i <= |s|
      ensures !OccursAt(s, pat, i)
    {
      if i + |pat| <= |s| {
        assert s[i..i + |pat|][k] == s[i + k] != c;
      }
    }
  }

  /** The first character of a replacement, for the three-character swaps. */
  lemma ReplaceHead(s: string, pat: string, rep: string)
    requires pat != [] && rep != [] && |s| > 0
    ensures Replace(s, pat, rep) != []
    ensures Replace(s, pat, rep)[0] == if StartsWith(s, pat) then rep[0] else s[0]
  {
  }

  /** Swapping the first two characters of a three-character pattern with
      three distinct characters leaves no occurrence of the pattern behind. */
  lemma {:induction false} SwapLeavesNoOccurrence(s: string, a: char, b: char, c: char)
    requires a != b && b != c && a != c
    ensures !Occurs(Replace(s, [a, b, c], [b, a, c]), [a, b, c])
    decreases |s|
  {
    var pat, rep := [a, b, c], [b, a, c];
    var r := Replace(s, pat, rep);
    if |s| < 3 {
      assert r == s;
    } else if s[..3] == pat {
      var t := Replace(s[3..], pat, rep);
      SwapLeavesNoOccurrence(s[3..], a, b, c);
      assert r == rep + t;
      NoOccurrenceAfterSwap(r, t, a, b, c);
    } else {
      var t := Replace(s[1..], pat, rep);
      SwapLeavesNoOccurrence(s[1..], a, b, c);
      assert r == [s[0]] + t;
      if s[0] == a && |t| >= 2 && t[0] == b {
        SwapHeadNotPattern(s, a, b, c);
      }
      NoOccurrenceAfterKept(r, t, a, b, c);
    }
  }

  /** Putting the swapped pattern in front of a string without the pattern
      makes no occurrence. */
  lemma NoOccurrenceAfterSwap(r: string, t: string, a: char, b: char, c: char)
    requires a != b && b != c && a != c
    requires r == [b, a, c] + t && !Occurs(t, [a, b, c])
    ensures !Occurs(r, [a, b, c])
  {
    var pat := [a, b, c];
    forall i: nat
      ensures !OccursAt(r, pat, i)
    {
      if i >= 3 && i + 3 <= |r| {
        assert r[i..i + 3] == t[i - 3..i - 3 + 3];
        assert !OccursAt(t, pat, i - 3);
      } else if i < 3 && i + 3 <= |r| {
        assert r[0] == b && r[1] == a && r[2] == c;
        assert r[i..i + 3][0] == r[i] && r[i..i + 3][1] == r[i + 1];
      }
    }
  }

  /** Putting one character in front of a string without the pattern makes
      no occurrence, unless it completes one with the first two characters. */
  lemma NoOccurrenceAfterKept(r: string, t: string, a: char, b: char, c: char)
    requires r != [] && r[1..] == t && !Occurs(t, [a, b, c])
    requires r[0] == a && |t| >= 2 && t[0] == b ==> t[1] != c
    ensures !Occurs(r, [a, b, c])
  {
    var pat := [a, b, c];
    forall i: nat
      ensures !OccursAt(r, pat, i)
    {
      if i >= 1 && i + 3 <= |r| {
        assert r[i..i + 3] == t[i - 1..i - 1 + 3];
        assert !OccursAt(t, pat, i - 1);
      } else if i == 0 && i + 3 <= |r| {
        assert r[..3][0] == r[0] && r[..3][1] == t[0] && r[..3][2] == t[1];
      }
    }
  }

  /** The case of SwapLeavesNoOccurrence where the first character is kept:
      what follows it cannot complete the pattern. */
  lemma SwapHeadNotPattern(s: string, a: char, b: char, c: char)
    requires a != b && b != c && a != c
    requires |s| >= 3 && s[..3] != [a, b, c] && s[0] == a
    requires |Replace(s[1..], [a, b, c], [b, a, c])| >= 2
    requires Replace(s[1..], [a, b, c], [b, a, c])[0] == b
    ensures Replace(s[1..], [a, b, c], [b, a, c])[1] != c
  {
    var pat, rep := [a, b, c], [b, a, c];
    var t := Replace(s[1..], pat, rep);
    ReplaceHead(s[1..], pat, rep);
    if StartsWith(s[1..], pat) {
      assert t == rep + Replace(s[4..], pat, rep);
    } else {
      assert s[1] == b;
      if |s| == 3 {
        assert t == s[1..];
        assert s[..3] == [s[0], s[1], s[2]];
      } else {
        assert t == [s[1]] + Replace(s[2..], pat, rep);
        ReplaceHead(s[2..], pat, rep);
        assert s[..3] == [s[0], s[1], s[2]];
      }
    }
  }

  // ---------------------------------------------------------------------
  // Splitting and joining
  // ---------------------------------------------------------------------

  function IndexOf(s: string, c: char): (k: nat)
    requires c in s
    ensures k < |s| && s[k] == c && c !in s[..k]
  {
    if s[0] == c then 0
    else
      var k := IndexOf(s[1..], c);
      assert s[..k + 1] == [s[0]] + s[1..][..k];
      k + 1
  }

  lemma {:induction false} IndexOfIs(s: string, c: char, k: nat)
    requires k < |s| && s[k] == c && c !in s[..k]
    ensures IndexOf(s, c) == k
  {
    if k > 0 {
      assert s[0] == s[..k][0];
      assert s[1..][..k - 1] == s[1..k];
      IndexOfIs(s[1..], c, k - 1);
    }
  }

  /** `s.split(sep)` for a one-character separator. */
  function Split(s: string, c: char): (r: seq<string>)
    ensures |r| >= 1
    ensures forall i :: 0 <= i < |r| ==> c !in r[i]
    decreases |s|
  {
    if c !in s then [s]
    else
      var k := IndexOf(s, c);
      [s[..k]] + Split(s[k + 1..], c)
  }

  /** `sep.join(ws)`. */
  function Join(sep: string, ws: seq<string>): string
  {
    if |ws| == 0 then ""
    else if |ws| == 1 then ws[0]
    else ws[0] + sep + Join(sep, ws[1..])
  }

  /** The pieces of a split hold only characters of the string. */
  lemma {:induction false} SplitChars(s: string, c: char)
    ensures forall i, d :: 0 <= i < |Split(s, c)| && d in Split(s, c)[i] ==> d in s
    decreases |s|
  {
    if c in s {
      var k := IndexOf(s, c);
      SplitChars(s[k + 1..], c);
      assert forall d :: d in s[..k] ==> d in s;
      assert forall d :: d in s[k + 1..] ==> d in s;
    }
  }

  /** Joining one more string adds the separator and that string. */
  lemma {:induction false} JoinSnoc(sep: string, ws: seq<string>, w: string)
    requires ws != []
    ensures Join(sep, ws + [w]) == Join(sep, ws) + sep + w
    decreases |ws|
  {
    if |ws| > 1 {
      assert (ws + [w])[1..] == ws[1..] + [w];
      JoinSnoc(sep, ws[1..], w);
    } else {
      assert ws + [w] == [ws[0], w];
      assert [ws[0], w][1..] == [w];
    }
  }

  lemma {:induction false} JoinSplit(s: string, c: char)
    ensures Join([c], Split(s, c)) == s
    decreases |s|
  {
    if c in s {
      var k := IndexOf(s, c);
      var rest := Split(s[k + 1..], c);
      JoinSplit(s[k + 1..], c);
      var ws := [s[..k]] + rest;
      assert Split(s, c) == ws;
      assert ws[1..] == rest && |ws| > 1;
      assert Join([c], ws) == s[..k] + [c] + Join([c], rest);
      assert s == s[..k] + [c] + s[k + 1..];
    }
  }

  lemma {:induction false} SplitJoin(ws: seq<string>, c: char)
    requires |ws| > 0
    requires forall i :: 0 <= i < |ws| ==> c !in ws[i]
    ensures Split(Join([c], ws), c) == ws
    decreases |ws|
  {
    if |ws| > 1 {
      var s := Join([c], ws);
      var rest := Join([c], ws[1..]);
      assert s == ws[0] + [c] + rest;
      assert s[..|ws[0]|] == ws[0];
      IndexOfIs(s, c, |ws[0]|);
      assert s[|ws[0]| + 1..] == rest;
      SplitJoin(ws[1..], c);
    }
  }

  /** Joining with a separator that none of the pieces contain: a character
      is in the result exactly when it is in a piece or is the separator
      between two pieces. */
  lemma {:induction false} JoinChars(sep: string, ws: seq<string>, d: char)
    requires d !in sep
    ensures d in Join(sep, ws) <==> exists i :: 0 <= i < |ws| && d in ws[i]
    decreases |ws|
  {
    if |ws| > 1 {
      JoinChars(sep, ws[1..], d);
      if d in Join(sep, ws[1..]) {
        var i :| 0 <= i < |ws[1..]| && d in ws[1..][i];
        assert d in ws[i + 1];
      }
      if exists i :: 0 <= i < |ws| && d in ws[i] {
        var i :| 0 <= i < |ws| && d in ws[i];
        if i > 0 {
          assert d in ws[1..][i - 1];
        }
      }
    } else if |ws| == 1 {
      if d in ws[0] {
        assert d in ws[0];
      }
    }
  }

  /** Length of the leading run of non-whitespace characters. */
  function TokenEnd(s: string): (n: nat)
    ensures n <= |s|
    ensures forall i :: 0 <= i < n ==> !IsSpace(s[i])
    ensures n < |s| ==> IsSpace(s[n])
  {
    if s == [] || IsSpace(s[0]) then 0 else 1 + TokenEnd(s[1..])
  }

  /** `s.split()`: the maximal runs of non-whitespace characters. */
  function SplitWs(s: string): (r: seq<string>)
    ensures forall i :: 0 <= i < |r| ==> r[i] != [] && NoSpace(r[i])
    decreases |s|
  {
    if s == [] then []
    else if IsSpace(s[0]) then SplitWs(s[1..])
    else
      var n := TokenEnd(s);
      [s[..n]] + SplitWs(s[n..])
  }

  lemma {:induction false} TokenEndIs(s: string, n: nat)
    requires n <= |s| && NoSpace(s[..n])
    requires n < |s| ==> IsSpace(s[n])
    ensures TokenEnd(s) == n
  {
    if n > 0 {
      assert s[0] == s[..n][0];
      assert s[1..][..n - 1] == s[1..n];
      TokenEndIs(s[1..], n - 1);
    }
  }

  lemma SplitWsToken(w: string)
    requires w != [] && NoSpace(w)
    ensures SplitWs(w) == [w]
  {
    assert w[..|w|] == w;
    TokenEndIs(w, |w|);
    assert w[|w|..] == [];
  }

  lemma {:induction false} SplitWsJoin(ws: seq<string>)
    requires forall i :: 0 <= i < |ws| ==> ws[i] != [] && NoSpace(ws[i])
    ensures SplitWs(Join(" ", ws)) == ws
    decreases |ws|
  {
    if |ws| == 1 {
      SplitWsToken(ws[0]);
    } else if |ws| > 1 {
      var s := Join(" ", ws);
      var w := ws[0];
      var rest := Join(" ", ws[1..]);
      assert s == w + " " + rest;
      assert !IsSpace(s[0]) && s[|w|] == ' ';
      TokenEndIs(s, |w|);
      var n := TokenEnd(s);
      assert s[..n] == w;
      assert s[n..] == " " + rest;
      assert SplitWs(s[n..]) == SplitWs(rest) by {
        assert (" " + rest)[1..] == rest;
      }
      SplitWsJoin(ws[1..]);
    }
  }

  // ---------------------------------------------------------------------
  // `s.strip(chars)`
  // ---------------------------------------------------------------------

  function StripLeft(s: string, chars: set<char>): string
  {
    if s != [] && s[0] in chars then StripLeft(s[1..], chars) else s
  }

  function StripRight(s: string, chars: set<char>): string
  {
    if s != [] && s[|s| - 1] in chars then StripRight(s[..|s| - 1], chars) else s
  }

  /** What is left after stripping on the left is a suffix that does not
      start with a stripped character. */
  lemma {:induction false} StripLeftShape(s: string, chars: set<char>)
    ensures var r := StripLeft(s, chars);
      |r| <= |s| && r == s[|s| - |r|..] && (r != [] ==> r[0] !in chars)
  {
    if s != [] && s[0] in chars {
      StripLeftShape(s[1..], chars);
    }
  }

  /** What is left after stripping on the right is a prefix that does not
      end with a stripped character. */
  lemma {:induction false} StripRightShape(s: string, chars: set<char>)
    ensures var r := StripRight(s, chars);
      |r| <= |s| && r == s[..|r|] && (r != [] ==> r[|r| - 1] !in chars)
  {
    if s != [] && s[|s| - 1] in chars {
      StripRightShape(s[..|s| - 1], chars);
    }
  }

  function Strip(s: string, chars: set<char>): string
  {
    StripRight(StripLeft(s, chars), chars)
  }

  lemma {:induction false} StripLeftIs(s: string, chars: set<char>, n: nat)
    requires n <= |s|
    requires forall i :: 0 <= i < n ==> s[i] in chars
    requires n < |s| ==> s[n] !in chars
    ensures StripLeft(s, chars) == s[n..]
  {
    if n > 0 {
      StripLeftIs(s[1..], chars, n - 1);
      assert s[1..][n - 1..] == s[n..];
    }
  }

  lemma {:induction false} StripRightIs(s: string, chars: set<char>, n: nat)
    requires n <= |s|
    requires forall i :: n <= i < |s| ==> s[i] in chars
    requires n > 0 ==> s[n - 1] !in chars
    ensures StripRight(s, chars) == s[..n]
    decreases |s|
  {
    if n < |s| {
      StripRightIs(s[..|s| - 1], chars, n);
      assert s[..|s| - 1][..n] == s[..n];
    }
  }
}
