/** Tokenizer and punctuation restorer: `preprocess`, `preserve_punc`,
    `apply_punct` and `_punct_replace_word`. */
module Punctuation {
  import opened Text
  import opened Wrappers

  /** `punct_str`: the characters `preprocess` strips from both ends of a
      token (it lists '/' twice and ends with a space). */
  const PunctChars: set<char> :=
    {'!', '\"', '#', '$', '%', '&', '\'', '(', ')', '*', '+', ',', '-', '.', '/', ':', ';', '<', '=', '>', '?', '@', '[', '\\', ']', '^', '_', '`', '{', '|', '}', '~', '«', '»', ' '}

  /** The punctuation set holds no ASCII letter or digit. */
  lemma PunctNotAlnum(c: char)
    requires c in PunctChars
    ensures !IsAlnum(c)
  {
  }

  /** One token of `preprocess`: stripped of punctuation at both ends, then
      lower-cased. */
  function Clean(w: string): string {
    Lower(Strip(w, PunctChars))
  }

  function CleanAll(ws: seq<string>): (r: seq<string>)
    ensures |r| == |ws| && forall i :: 0 <= i < |ws| ==> r[i] == Clean(ws[i])
  {
    seq(|ws|, i requires 0 <= i < |ws| => Clean(ws[i]))
  }

  /** `preprocess(words)`: the cleaned whitespace tokens joined by single spaces. */
  function Preprocess(words: string): (r: string)
    ensures NoUpper(r)
    ensures forall i :: 0 <= i < |r| && IsSpace(r[i]) ==> r[i] == ' '
  {
    var tokens := SplitWs(words);
    var cs := CleanAll(tokens);
    assert forall i :: 0 <= i < |cs| ==> NoSpace(cs[i]) by {
      forall i | 0 <= i < |cs|
        ensures NoSpace(cs[i])
      {
        CleanNoSpace(tokens[i]);
      }
    }
    JoinPlain(cs);
    Join(" ", cs)
  }

  /** Joining lowercase tokens without whitespace by spaces gives a
      lowercase text whose only whitespace is those spaces. */
  lemma JoinPlain(cs: seq<string>)
    requires forall i :: 0 <= i < |cs| ==> NoUpper(cs[i]) && NoSpace(cs[i])
    ensures var r := Join(" ", cs);
      NoUpper(r) && forall i :: 0 <= i < |r| && IsSpace(r[i]) ==> r[i] == ' '
  {
    var r := Join(" ", cs);
    forall i | 0 <= i < |r| && r[i] != ' '
      ensures !IsUpper(r[i]) && !IsSpace(r[i])
    {
      JoinChars(" ", cs, r[i]);
      var k :| 0 <= k < |cs| && r[i] in cs[k];
      var j :| 0 <= j < |cs[k]| && cs[k][j] == r[i];
    }
  }

  /** On a single token, `preprocess` is `Clean`. */
  lemma PreprocessToken(w: string)
    requires w != [] && NoSpace(w)
    ensures Preprocess(w) == Clean(w)
  {
    SplitWsToken(w);
  }

  lemma CleanNoSpace(w: string)
    requires NoSpace(w)
    ensures NoSpace(Clean(w))
  {
    var l := StripLeft(w, PunctChars);
    var s := StripRight(l, PunctChars);
    StripLeftShape(w, PunctChars);
    StripRightShape(l, PunctChars);
    forall i | 0 <= i < |s|
      ensures !IsSpace(s[i])
    {
      assert s[i] == l[i] == w[|w| - |l| + i];
    }
  }

  /** Lower-casing does not turn a character into punctuation. */
  lemma LowerKeepsNonPunct(c: char)
    requires c !in PunctChars
    ensures ToLower(c) !in PunctChars
  {
  }

  /** Cleaning a token twice is cleaning it once. */
  lemma CleanIdempotent(w: string)
    ensures Clean(Clean(w)) == Clean(w)
  {
    var t := StripLeft(w, PunctChars);
    var s := StripRight(t, PunctChars);
    var l := Lower(s);
    StripLeftShape(w, PunctChars);
    StripRightShape(t, PunctChars);
    if l != [] {
      assert s[0] == t[0];
      LowerKeepsNonPunct(s[0]);
      LowerKeepsNonPunct(s[|s| - 1]);
    }
    StripLeftIs(l, PunctChars, 0);
    assert l[0..] == l;
    StripRightIs(l, PunctChars, |l|);
    assert l[..|l|] == l;
    assert Strip(l, PunctChars) == l;
    LowerOfLowercase(l);
  }

  /** `preprocess` is idempotent as long as no token is made only of
      punctuation; `PreprocessNotIdempotent` shows the exception. */
  lemma PreprocessIdempotent(words: string)
    requires forall w :: w in SplitWs(words) ==> Clean(w) != []
    ensures Preprocess(Preprocess(words)) == Preprocess(words)
  {
    var toks := SplitWs(words);
    var cs := CleanAll(toks);
    forall i | 0 <= i < |cs|
      ensures cs[i] != [] && NoSpace(cs[i])
    {
      assert toks[i] in toks;
      CleanNoSpace(toks[i]);
    }
    SplitWsJoin(cs);
    forall i | 0 <= i < |cs|
      ensures Clean(cs[i]) == cs[i]
    {
      CleanIdempotent(toks[i]);
    }
    assert CleanAll(cs) == cs;
  }

  lemma SplitExample()
    ensures SplitWs("a ! b") == ["a", "!", "b"]
  {
    var s := "a ! b";
    TokenEndIs(s, 1);
    assert s[..1] == "a" && s[1..] == " ! b";
    assert (" ! b")[1..] == "! b";
    TokenEndIs("! b", 1);
    assert ("! b")[..1] == "!" && ("! b")[1..] == " b";
    assert (" b")[1..] == "b";
    SplitWsToken("b");
  }

  lemma SplitGapExample()
    ensures SplitWs("a  b") == ["a", "b"]
  {
    var t := "a  b";
    TokenEndIs(t, 1);
    assert t[..1] == "a" && t[1..] == "  b";
    assert ("  b")[1..] == " b";
    assert (" b")[1..] == "b";
    SplitWsToken("b");
  }

  lemma CleanLetter(c: char)
    requires IsLower(c)
    ensures Clean([c]) == [c]
  {
    StripLeftIs([c], PunctChars, 0);
    StripRightIs([c], PunctChars, 1);
    LowerOfLowercase([c]);
  }

  /** A token that is only punctuation leaves two spaces behind, which a
      second `preprocess` collapses. */
  lemma PreprocessNotIdempotent()
    ensures Preprocess(Preprocess("a ! b")) != Preprocess("a ! b")
  {
    PreprocessDropsBang();
    PreprocessCollapsesGap();
  }

  lemma PreprocessDropsBang()
    ensures Preprocess("a ! b") == "a  b"
  {
    SplitExample();
    CleanLetter('a');
    CleanLetter('b');
    CleanBang();
    var cs := CleanAll(["a", "!", "b"]);
    assert cs == ["a", "", "b"];
    JoinGapExample();
  }

  lemma JoinGapExample()
    ensures Join(" ", ["a", "", "b"]) == "a  b"
  {
    var ws: seq<string> := ["a", "", "b"];
    assert ws[1..] == ["", "b"] && ws[1..][1..] == ["b"];
    assert Join(" ", ["b"]) == "b";
    assert Join(" ", ["", "b"]) == " b";
  }

  lemma CleanBang()
    ensures Clean("!") == ""
  {
    assert Strip("!", PunctChars) == "";
  }

  lemma PreprocessCollapsesGap()
    ensures Preprocess("a  b") == "a b"
  {
    SplitGapExample();
    CleanLetter('a');
    CleanLetter('b');
    assert CleanAll(["a", "b"]) == ["a", "b"];
  }

  // ---------------------------------------------------------------------
  // preserve_punc
  // ---------------------------------------------------------------------

  /** The `[prefix, core, suffix]` list `preserve_punc` builds per token. */
  datatype Triple = Triple(prefix: string, core: string, suffix: string)

  /** Length of the leading run of characters outside [A-Za-z0-9]. */
  function LeadingRun(w: string): (n: nat)
    ensures n <= |w|
    ensures forall i :: 0 <= i < n ==> !IsAlnum(w[i])
    ensures n < |w| ==> IsAlnum(w[n])
  {
    if w == [] || IsAlnum(w[0]) then 0 else 1 + LeadingRun(w[1..])
  }

  /** Length of the trailing run of characters outside [A-Za-z0-9]. */
  function TrailingRun(w: string): (n: nat)
    ensures n <= |w|
    ensures forall i :: |w| - n <= i < |w| ==> !IsAlnum(w[i])
    ensures n < |w| ==> IsAlnum(w[|w| - n - 1])
  {
    if w == [] || IsAlnum(w[|w| - 1]) then 0 else 1 + TrailingRun(w[..|w| - 1])
  }

  /** `re.search("^([^A-Za-z0-9]+)[A-Za-z]", w)`, group 1. The greedy run
      can only be followed by a letter at its full length: every shorter
      run is followed by another non-alphanumeric character. */
  function SearchBefore(w: string): Option<string> {
    var n := LeadingRun(w);
    if 0 < n < |w| && IsLetter(w[n]) then Some(w[..n]) else None
  }

  /** `re.search("[A-Za-z]([^A-Za-z0-9]+)$", w)`, group 1. */
  function SearchAfter(w: string): Option<string> {
    var n := TrailingRun(w);
    if 0 < n < |w| && IsLetter(w[|w| - n - 1]) then Some(w[|w| - n..]) else None
  }

  predicate NonAlnumRun(s: string) {
    s != [] && forall i :: 0 <= i < |s| ==> !IsAlnum(s[i])
  }

  lemma {:induction false} LeadingRunIs(w: string, n: nat)
    requires n <= |w|
    requires forall i :: 0 <= i < n ==> !IsAlnum(w[i])
    requires n < |w| ==> IsAlnum(w[n])
    ensures LeadingRun(w) == n
  {
    if n > 0 {
      LeadingRunIs(w[1..], n - 1);
    }
  }

  lemma {:induction false} TrailingRunIs(w: string, n: nat)
    requires n <= |w|
    requires forall i :: |w| - n <= i < |w| ==> !IsAlnum(w[i])
    requires n < |w| ==> IsAlnum(w[|w| - n - 1])
    ensures TrailingRun(w) == n
  {
    if n > 0 {
      var v := w[..|w| - 1];
      forall i | |v| - (n - 1) <= i < |v|
        ensures !IsAlnum(v[i])
      {
        assert v[i] == w[i];
      }
      TrailingRunIs(v, n - 1);
    }
  }

  /** SearchBefore matches exactly when some non-alphanumeric prefix is
      followed by a letter, and then that prefix is its group. */
  lemma SearchBeforeMatches(w: string, n: nat)
    requires n < |w|
    ensures (NonAlnumRun(w[..n]) && IsLetter(w[n])) <==> SearchBefore(w) == Some(w[..n])
  {
    if NonAlnumRun(w[..n]) && IsLetter(w[n]) {
      forall i | 0 <= i < n
        ensures !IsAlnum(w[i])
      {
        assert w[..n][i] == w[i];
      }
      LeadingRunIs(w, n);
    }
    if SearchBefore(w) == Some(w[..n]) {
      var m := LeadingRun(w);
      assert |w[..m]| == m;
      forall i | 0 <= i < n
        ensures !IsAlnum(w[..n][i])
      {
        assert w[..n][i] == w[i];
      }
    }
  }

  /** SearchAfter matches exactly when some letter is followed by a
      non-alphanumeric suffix, and then that suffix is its group. */
  lemma SearchAfterMatches(w: string, k: nat)
    requires k < |w|
    ensures (IsLetter(w[k]) && NonAlnumRun(w[k + 1..])) <==> SearchAfter(w) == Some(w[k + 1..])
  {
    if IsLetter(w[k]) && NonAlnumRun(w[k + 1..]) {
      forall i | k + 1 <= i < |w|
        ensures !IsAlnum(w[i])
      {
        assert w[k + 1..][i - (k + 1)] == w[i];
      }
      TrailingRunIs(w, |w| - k - 1);
    }
    if SearchAfter(w) == Some(w[k + 1..]) {
      var m := TrailingRun(w);
      assert |w[|w| - m..]| == m;
      var suffix := w[k + 1..];
      forall j | 0 <= j < |suffix|
        ensures !IsAlnum(suffix[j])
      {
        assert suffix[j] == w[k + 1 + j];
      }
    }
  }

  /** The triple `preserve_punc` builds for one whitespace token. */
  function TokenTriple(w: string): Triple {
    Triple(
      match SearchBefore(w) case Some(p) => p case None => "",
      Preprocess(w),
      match SearchAfter(w) case Some(s) => s case None => "")
  }

  /** `preserve_punc(words)`: one triple per whitespace token, in order. */
  method PreservePunc(words: string) returns (preserved: seq<Triple>)
    ensures |preserved| == |SplitWs(words)|
    ensures forall i :: 0 <= i < |preserved| ==> preserved[i] == TokenTriple(SplitWs(words)[i])
  {
    var tokens := SplitWs(words);
    preserved := [];
    for k := 0 to |tokens|
      invariant preserved == MapLeft(TokenTriple, tokens[..k])
    {
      var punctList := PunctList(tokens[k]);
      assert tokens[..k + 1][..k] == tokens[..k];
      preserved := preserved + [punctList];
    }
    assert tokens[..|tokens|] == tokens;
    MapLeftAt(TokenTriple, tokens);
  }

  /** The body of the loop of `preserve_punc` for one token `w`. */
  method PunctList(w: string) returns (punctList: Triple)
    ensures punctList == TokenTriple(w)
  {
    punctList := Triple("", Preprocess(w), "");
    var before := SearchBefore(w);
    var after := SearchAfter(w);
    if before.Some? {
      punctList := punctList.(prefix := before.value);
    }
    if after.Some? {
      punctList := punctList.(suffix := after.value);
    }
  }

  // ---------------------------------------------------------------------
  // apply_punct and the round trip
  // ---------------------------------------------------------------------

  /** The three parts of a whitespace token's triple hold no whitespace. */
  lemma TokenTripleNoSpace(w: string)
    requires w != [] && NoSpace(w)
    ensures var t := TokenTriple(w);
      NoSpace(t.prefix) && NoSpace(t.core) && NoSpace(t.suffix)
  {
    PreprocessToken(w);
    CleanNoSpace(w);
    var p, q := LeadingRun(w), TrailingRun(w);
    var before, after := w[..p], w[|w| - q..];
    assert forall i :: 0 <= i < p ==> before[i] == w[i];
    assert forall i :: 0 <= i < q ==> after[i] == w[|w| - q + i];
  }

  /** `''.join(triple)`. */
  function Glue(t: Triple): string {
    t.prefix + t.core + t.suffix
  }

  /** The leading `p` and trailing `q` characters of `w` are the two runs
      `preserve_punc` looks at: they are `punct_str` characters, something
      alphanumeric lies between them, and a non-empty run borders a letter. */
  predicate RunsAt(w: string, p: nat, q: nat) {
    p < |w| - q &&
    (forall i :: 0 <= i < p ==> w[i] in PunctChars) &&
    (forall i :: |w| - q <= i < |w| ==> w[i] in PunctChars) &&
    IsAlnum(w[p]) && IsAlnum(w[|w| - q - 1]) &&
    (p > 0 ==> IsLetter(w[p])) &&
    (q > 0 ==> IsLetter(w[|w| - q - 1]))
  }

  /** A token the round trip holds for: lower-case, without whitespace, and
      with end runs as `RunsAt` describes. */
  ghost predicate RoundTrippable(w: string) {
    NoSpace(w) && NoUpper(w) && exists p: nat, q: nat :: RunsAt(w, p, q)
  }

  /** The runs of `RunsAt` are the maximal non-alphanumeric runs. */
  lemma RunsAreMaximal(w: string, p: nat, q: nat)
    requires RunsAt(w, p, q)
    ensures LeadingRun(w) == p && TrailingRun(w) == q
  {
    forall i | 0 <= i < p
      ensures !IsAlnum(w[i])
    {
      PunctNotAlnum(w[i]);
    }
    forall i | |w| - q <= i < |w|
      ensures !IsAlnum(w[i])
    {
      PunctNotAlnum(w[i]);
    }
    LeadingRunIs(w, p);
    TrailingRunIs(w, q);
  }

  /** Stripping removes exactly a leading run of `p` and a trailing run of
      `q` punctuation characters that border alphanumeric characters. */
  lemma StripRuns(w: string, p: nat, q: nat)
    requires p < |w| - q
    requires forall i :: 0 <= i < p ==> w[i] in PunctChars
    requires forall i :: |w| - q <= i < |w| ==> w[i] in PunctChars
    requires IsAlnum(w[p]) && IsAlnum(w[|w| - q - 1])
    ensures Strip(w, PunctChars) == w[p..|w| - q]
  {
    StripLeftIs(w, PunctChars, p);
    var l := w[p..];
    assert l[|l| - q - 1] == w[|w| - q - 1];
    StripRightIs(l, PunctChars, |l| - q);
    assert l[..|l| - q] == w[p..|w| - q];
  }

  /** Cleaning a lower-case token with runs `p` and `q` leaves what lies
      between them. */
  lemma CleanRuns(w: string, p: nat, q: nat)
    requires NoUpper(w) && RunsAt(w, p, q)
    ensures Clean(w) == w[p..|w| - q]
  {
    StripRuns(w, p, q);
    NoUpperSlice(w, p, |w| - q);
    CleanOfStripped(w, w[p..|w| - q]);
  }

  lemma NoUpperSlice(w: string, a: nat, b: nat)
    requires NoUpper(w) && a <= b <= |w|
    ensures NoUpper(w[a..b])
  {
    forall i | 0 <= i < b - a
      ensures !IsUpper(w[a..b][i])
    {
      assert w[a..b][i] == w[a + i];
    }
  }

  lemma CleanOfStripped(w: string, core: string)
    requires NoUpper(core) && Strip(w, PunctChars) == core
    ensures Clean(w) == core
  {
    LowerOfLowercase(core);
  }

  /** With runs `p` and `q`, the prefix and suffix `preserve_punc` finds are
      exactly those runs (empty when a run is empty). */
  lemma SearchRuns(w: string, p: nat, q: nat)
    requires RunsAt(w, p, q)
    ensures (match SearchBefore(w) case Some(x) => x case None => "") == w[..p]
    ensures (match SearchAfter(w) case Some(x) => x case None => "") == w[|w| - q..]
  {
    RunsAreMaximal(w, p, q);
    LeadingRunFound(w, p);
    TrailingRunFound(w, q);
  }

  lemma LeadingRunFound(w: string, p: nat)
    requires p < |w| && LeadingRun(w) == p && (p > 0 ==> IsLetter(w[p]))
    ensures (match SearchBefore(w) case Some(x) => x case None => "") == w[..p]
  {
  }

  lemma TrailingRunFound(w: string, q: nat)
    requires q < |w| && TrailingRun(w) == q && (q > 0 ==> IsLetter(w[|w| - q - 1]))
    ensures (match SearchAfter(w) case Some(x) => x case None => "") == w[|w| - q..]
  {
  }

  /** `preserve_punc` turns a round-trippable token into one triple, and
      gluing that triple back together gives the token. */
  lemma PunctRoundTrip(w: string)
    requires RoundTrippable(w)
    ensures SplitWs(w) == [w]
    ensures Glue(TokenTriple(w)) == w
  {
    var p: nat, q: nat :| RunsAt(w, p, q);
    SplitWsToken(w);
    PreprocessToken(w);
    CleanRuns(w, p, q);
    SearchRuns(w, p, q);
    ThreeSlices(w, p, |w| - q);
  }

  /** Cutting a string at two points and gluing the pieces gives it back. */
  lemma ThreeSlices(w: string, a: nat, b: nat)
    requires a <= b <= |w|
    ensures w[..a] + w[a..b] + w[b..] == w
  {
    assert w[..a] + w[a..b] == w[..b];
  }

  function GlueAll(ts: seq<Triple>): (r: seq<string>)
    ensures |r| == |ts| && forall i :: 0 <= i < |ts| ==> r[i] == Glue(ts[i])
  {
    seq(|ts|, i requires 0 <= i < |ts| => Glue(ts[i]))
  }

  /** The argument of `apply_punct`: one triple, or a list of triples. */
  datatype PunctArg = OneTriple(t: Triple) | TripleList(ts: seq<Triple>)

  /** What `apply_punct` returns: a string (`as_str`) or a list of strings. */
  datatype Glued = GluedStr(s: string) | GluedList(ss: seq<string>)

  /** `apply_punct(triple, as_str)`. A list is recognised by looking at its
      first element, so an empty list is an IndexError. */
  method ApplyPunct(arg: PunctArg, asStr: bool) returns (r: Result<Glued>)
    ensures arg.OneTriple? ==>
      r == Success(if asStr then GluedStr(Glue(arg.t)) else GluedList([Glue(arg.t)]))
    ensures arg.TripleList? && arg.ts == [] ==> r == Failure("IndexError")
    ensures arg.TripleList? && arg.ts != [] ==>
      r == Success(if asStr then GluedStr(Join(" ", GlueAll(arg.ts))) else GluedList(GlueAll(arg.ts)))
  {
    match arg
    case OneTriple(t) =>
      if asStr {
        r := Success(GluedStr(Glue(t)));
      } else {
        r := Success(GluedList([Glue(t)]));
      }
    case TripleList(ts) =>
      if ts == [] {
        return Failure("IndexError");
      }
      var glued: seq<string> := [];
      for i := 0 to |ts|
        invariant |glued| == i
        invariant forall j :: 0 <= j < i ==> glued[j] == Glue(ts[j])
      {
        glued := glued + [Glue(ts[i])];
      }
      assert glued == GlueAll(ts);
      if asStr {
        r := Success(GluedStr(Join(" ", glued)));
      } else {
        r := Success(GluedList(glued));
      }
  }

  // ---------------------------------------------------------------------
  // _punct_replace_word
  // ---------------------------------------------------------------------

  /** Candidate `item` with the punctuation of token `t` around it. */
  function Wrap(t: Triple, item: string): string {
    Glue(Triple(t.prefix, item, t.suffix))
  }

  /** `_punct_replace_word(original, transcription)`: every candidate of
      word i is wrapped, in place, in the prefix and suffix of token i. */
  method PunctReplaceWord(original: seq<Triple>, transcription: array<seq<string>>)
    requires transcription.Length <= |original|
    modifies transcription
    ensures forall i :: 0 <= i < transcription.Length ==>
      |transcription[i]| == |old(transcription[i])| &&
      forall j :: 0 <= j < |transcription[i]| ==>
        transcription[i][j] == Wrap(original[i], old(transcription[i][j]))
  {
    for i := 0 to transcription.Length
      invariant forall k :: 0 <= k < i ==>
        |transcription[k]| == |old(transcription[k])| &&
        forall j :: 0 <= j < |transcription[k]| ==>
          transcription[k][j] == Wrap(original[k], old(transcription[k][j]))
      invariant forall k :: i <= k < transcription.Length ==> transcription[k] == old(transcription[k])
    {
      for j := 0 to |transcription[i]|
        invariant |transcription[i]| == |old(transcription[i])|
        invariant forall m :: 0 <= m < j ==> transcription[i][m] == Wrap(original[i], old(transcription[i][m]))
        invariant forall m :: j <= m < |transcription[i]| ==> transcription[i][m] == old(transcription[i][m])
        invariant forall k :: 0 <= k < i ==>
          |transcription[k]| == |old(transcription[k])| &&
          forall m :: 0 <= m < |transcription[k]| ==>
            transcription[k][m] == Wrap(original[k], old(transcription[k][m]))
        invariant forall k :: i < k < transcription.Length ==> transcription[k] == old(transcription[k])
      {
        var triple := Triple(original[i].prefix, transcription[i][j], original[i].suffix);
        var glued := ApplyPunct(OneTriple(triple), true);
        transcription[i] := transcription[i][j := glued.value.s];
      }
    }
  }

  /** Each wrapped candidate starts with the token's prefix, ends with its
      suffix, and has the original candidate in between. */
  lemma WrapUnwrap(t: Triple, item: string)
    ensures var w := Wrap(t, item);
      |w| == |t.prefix| + |item| + |t.suffix| &&
      w[..|t.prefix|] == t.prefix &&
      w[|t.prefix|..|w| - |t.suffix|] == item &&
      w[|w| - |t.suffix|..] == t.suffix
  {
  }
}
