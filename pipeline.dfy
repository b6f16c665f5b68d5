/** The entry points of the transcriber: `ipa_list` (tokens to candidate
    lists), `isin_cmu` (are all words in the dictionary?) and `convert` on
    its top-only path (one transcription, stress glyphs removed, then
    either untranscribable words shown in capitals or visemes). */
module Pipeline {
  import opened Text
  import opened Wrappers
  import opened Ordering
  import opened Punctuation
  import opened Resolver
  import opened Mapper
  import opened Selection
  import opened Viseme

  /** `words_in`: a string, split on whitespace, or a list of strings. */
  datatype WordsIn = AsString(s: string) | AsList(ws: seq<string>)

  /** The items `ipa_list` walks over. */
  function Items(input: WordsIn): seq<string> {
    match input
    case AsString(s) => SplitWs(s)
    case AsList(ws) => ws
  }

  // ---------------------------------------------------------------------
  // ipa_list
  // ---------------------------------------------------------------------

  /** `preserve_punc(w.lower())[0]`: the triple of the first token of `w`;
      a blank `w` has none, which is an IndexError. */
  function FirstTriple(w: string): Result<Triple> {
    var ts := SplitWs(Lower(w));
    if ts == [] then Failure("IndexError") else Success(TokenTriple(ts[0]))
  }

  /** The first triple of every item, in order. */
  function Triples(ws: seq<string>): (r: Result<seq<Triple>>)
    ensures r.Failure? ==> r == Failure("IndexError")
    ensures r.Success? ==> |r.value| == |ws|
  {
    if ws == [] then Success([])
    else
      var init :- Triples(ws[..|ws| - 1]);
      var last :- FirstTriple(ws[|ws| - 1]);
      Success(init + [last])
  }

  /** The candidates `get_cmu` finds for the cores of the triples. */
  function Candidates(table: seq<Row>, words: seq<Triple>): (r: seq<seq<string>>)
    ensures |r| == |words|
  {
    seq(|words|, i requires 0 <= i < |words| => Resolve(table, words[i].core))
  }

  /** Every candidate of word `i` wrapped in the punctuation of token `i`. */
  function WrapAll(words: seq<Triple>, ipa: seq<seq<string>>): (r: seq<seq<string>>)
    requires |ipa| <= |words|
    ensures |r| == |ipa|
  {
    seq(|ipa|, i requires 0 <= i < |ipa| =>
      seq(|ipa[i]|, j requires 0 <= j < |ipa[i]| => Wrap(words[i], ipa[i][j])))
  }

  /** What `ipa_list(words_in, keep_punct, stress_marks)` returns. */
  function IpaOf(table: seq<Row>, input: WordsIn, keepPunct: bool, stress: StressMarking,
                 findStress: (string, string) -> string): Result<seq<seq<string>>>
  {
    var words :- Triples(Items(input));
    var cmu := Candidates(table, words);
    var c := CmuIpa(cmu, true, stress, findStress);
    if c.Failure? then Failure(c.error)
    else if !keepPunct then Success(c.value.lists)
    else
      CmuIpaShape(cmu, true, stress, findStress);
      Success(WrapAll(words, c.value.lists))
  }

  /** A failure among the first `k` items is a failure of all of them. */
  lemma {:induction false} TriplesPrefixFails(ws: seq<string>, k: nat)
    requires k <= |ws| && Triples(ws[..k]).Failure?
    ensures Triples(ws) == Failure("IndexError")
    decreases |ws|
  {
    if k < |ws| {
      assert ws[..|ws| - 1][..k] == ws[..k];
      TriplesPrefixFails(ws[..|ws| - 1], k);
    } else {
      assert ws[..k] == ws;
    }
  }

  /** `ipa_list(words_in, keep_punct, stress_marks)`. */
  method IpaList(table: seq<Row>, input: WordsIn, keepPunct: bool, stress: StressMarking,
                 findStress: (string, string) -> string) returns (r: Result<seq<seq<string>>>)
    ensures r == IpaOf(table, input, keepPunct, stress, findStress)
  {
    var triples := FirstTriples(Items(input));
    if triples.Failure? {
      return Failure(triples.error);
    }
    var words := triples.value;
    var cores := seq(|words|, i requires 0 <= i < |words| => words[i].core);
    var cmu := GetCmu(table, cores);
    assert cmu == Candidates(table, words);
    var ipa := CmuToIpa(cmu, true, stress, findStress);
    if ipa.Failure? || !keepPunct {
      return ipa;
    }
    CmuIpaShape(cmu, true, stress, findStress);
    var wrapped := ReplaceWords(words, ipa.value);
    r := Success(wrapped);
  }

  /** The list comprehension of `ipa_list`: `preserve_punc(w.lower())[0]`
      for every item. */
  method FirstTriples(items: seq<string>) returns (r: Result<seq<Triple>>)
    ensures r == Triples(items)
  {
    var words: seq<Triple> := [];
    for k := 0 to |items|
      invariant Triples(items[..k]) == Success(words)
    {
      assert items[..k + 1][..k] == items[..k];
      var preserved := PreservePunc(Lower(items[k]));
      if |preserved| == 0 {
        TriplesPrefixFails(items, k + 1);
        return Failure("IndexError");
      }
      words := words + [preserved[0]];
    }
    assert items[..|items|] == items;
    r := Success(words);
  }

  /** The `keep_punct` step of `ipa_list`: `_punct_replace_word` on a fresh
      array holding the candidate lists. */
  method ReplaceWords(words: seq<Triple>, lists: seq<seq<string>>) returns (wrapped: seq<seq<string>>)
    requires |lists| <= |words|
    ensures wrapped == WrapAll(words, lists)
  {
    var transcription := new seq<string>[|lists|](i requires 0 <= i < |lists| => lists[i]);
    PunctReplaceWord(words, transcription);
    wrapped := transcription[..];
    var expected := WrapAll(words, lists);
    forall i | 0 <= i < |lists|
      ensures wrapped[i] == expected[i]
    {
      assert |wrapped[i]| == |expected[i]|;
    }
  }

  /** Lowercasing makes no whitespace and removes none. */
  lemma LowerNoSpace(w: string)
    requires NoSpace(w)
    ensures NoSpace(Lower(w))
  {
  }

  /** Every item of a string input is one token, so a string never makes
      the IndexError, and each triple is that of the lowercased token. */
  lemma TextTriples(ws: seq<string>)
    requires forall i :: 0 <= i < |ws| ==> ws[i] != [] && NoSpace(ws[i])
    ensures Triples(ws).Success?
    ensures forall i :: 0 <= i < |ws| ==> Triples(ws).value[i] == TokenTriple(Lower(ws[i]))
  {
    TriplesOfTokens(ws);
    MapLeftAt(LowerTriple, ws);
  }

  /** The triple of a token that is already one whitespace token. */
  function LowerTriple(w: string): Triple {
    TokenTriple(Lower(w))
  }

  lemma {:induction false} TriplesOfTokens(ws: seq<string>)
    requires forall i :: 0 <= i < |ws| ==> ws[i] != [] && NoSpace(ws[i])
    ensures Triples(ws) == Success(MapLeft(LowerTriple, ws))
    decreases |ws|
  {
    if ws != [] {
      var init := ws[..|ws| - 1];
      assert forall i :: 0 <= i < |init| ==> init[i] == ws[i];
      TriplesOfTokens(init);
      var last := ws[|ws| - 1];
      LowerNoSpace(last);
      SplitWsToken(Lower(last));
      assert FirstTriple(last) == Success(LowerTriple(last));
    }
  }

  lemma StringInputTriples(s: string)
    ensures Triples(SplitWs(s)).Success?
    ensures var ts := SplitWs(s);
      forall i :: 0 <= i < |ts| ==> Triples(ts).value[i] == TokenTriple(Lower(ts[i]))
  {
    TextTriples(SplitWs(s));
  }

  /** A blank item in a list input is an IndexError. */
  lemma BlankItemFails(ws: seq<string>, k: nat)
    requires k < |ws| && SplitWs(Lower(ws[k])) == []
    ensures Triples(ws) == Failure("IndexError")
  {
    var pre := ws[..k + 1];
    assert pre[..k] == ws[..k] && pre[k] == ws[k];
    assert FirstTriple(pre[k]) == Failure("IndexError");
    assert Triples(pre).Failure?;
    TriplesPrefixFails(ws, k + 1);
  }

  /** The shape of `ipa_list`: one non-empty list per item; without
      punctuation each list is strictly ascending, and with it every
      candidate of item `i` starts with the item's leading punctuation and
      ends with its trailing punctuation. */
  lemma IpaShape(table: seq<Row>, input: WordsIn, keepPunct: bool, stress: StressMarking,
                 findStress: (string, string) -> string)
    requires IpaOf(table, input, keepPunct, stress, findStress).Success?
    ensures var r := IpaOf(table, input, keepPunct, stress, findStress).value;
      var words := Triples(Items(input)).value;
      |r| == |Items(input)| &&
      (forall i :: 0 <= i < |r| ==> r[i] != []) &&
      (!keepPunct ==> forall i :: 0 <= i < |r| ==> StrictlySorted(r[i])) &&
      (keepPunct ==> forall i, j :: 0 <= i < |r| && 0 <= j < |r[i]| ==>
        StartsWith(r[i][j], words[i].prefix) && EndsWith(r[i][j], words[i].suffix))
  {
    var words := Triples(Items(input)).value;
    var cmu := Candidates(table, words);
    CmuIpaShape(cmu, true, stress, findStress);
    var lists := CmuIpa(cmu, true, stress, findStress).value.lists;
    forall i | 0 <= i < |lists|
      ensures lists[i] != []
    {
      ResolveNonEmpty(table, words[i].core);
    }
    if keepPunct {
      var r := WrapAll(words, lists);
      forall i, j | 0 <= i < |r| && 0 <= j < |r[i]|
        ensures StartsWith(r[i][j], words[i].prefix) && EndsWith(r[i][j], words[i].suffix)
      {
        WrapUnwrap(words[i], lists[i][j]);
      }
    }
  }

  predicate EndsWith(s: string, p: string) {
    |p| <= |s| && s[|s| - |p|..] == p
  }

  // ---------------------------------------------------------------------
  // isin_cmu
  // ---------------------------------------------------------------------

  /** The words `isin_cmu` looks up: a string is split and each token
      preprocessed; a list is used as it is. */
  function Queried(input: WordsIn): (r: seq<string>)
  {
    match input
    case AsString(s) => CleanAll(SplitWs(s))
    case AsList(ws) => ws
  }

  /** A subset as large as its superset is the superset. */
  lemma {:induction false} SubsetSize(a: set<string>, b: set<string>)
    requires a <= b
    ensures |a| <= |b|
    ensures |a| == |b| ==> a == b
    decreases |b|
  {
    if b != {} {
      var x :| x in b;
      SubsetSize(a - {x}, b - {x});
      if x in a {
        assert a == (a - {x}) + {x};
        assert b == (b - {x}) + {x};
      } else {
        assert a - {x} == a;
      }
    }
  }

  /** `isin_cmu(word)`: whether the dictionary has every distinct word. */
  method IsinCmu(table: seq<Row>, input: WordsIn) returns (b: bool)
    ensures b <==> forall w :: w in Queried(input) ==> exists p :: Row(w, p) in table
  {
    var word := Queried(input);
    var results := FetchWords(table, word);
    var asSet := results.Keys;
    var wordSet := set w | w in word;
    assert asSet <= wordSet;
    SubsetSize(asSet, wordSet);
    b := |asSet| == |wordSet|;
    forall w | w in word
      ensures (w in asSet) <==> exists p :: Row(w, p) in table
    {
      ResolveListed(table, w);
    }
    assert b <==> asSet == wordSet;
    assert asSet == wordSet <==> forall w :: w in word ==> w in asSet;
  }

  // ---------------------------------------------------------------------
  // convert, top-only path
  // ---------------------------------------------------------------------

  /** `ans.replace("ˈ", "").replace("ˌ", "")`. */
  function Unstressed(s: string): string {
    Replace(Replace(s, [Primary], ""), [Secondary], "")
  }

  /** The marker cleanup of one word: a word with `*` becomes its
      capitalised form, any other word is kept. */
  function Cleanup(w: string): string {
    if '*' in w then Unresolved(w) else w
  }

  function CleanupAll(ws: seq<string>): (r: seq<string>)
    ensures |r| == |ws|
  {
    seq(|ws|, i requires 0 <= i < |ws| => Cleanup(ws[i]))
  }

  /** What `convert(text, keep_punct=.., stress_marks=.., viseme=..,
      viseme_language=..)` returns with `retrieve_all=False` and
      `no_stress=True`. */
  function ConvertOf(table: seq<Row>, visemes: VisemeTable, input: WordsIn, keepPunct: bool,
                     stress: StressMarking, findStress: (string, string) -> string,
                     viseme: bool, language: string): Result<string>
  {
    var ipa :- IpaOf(table, input, keepPunct, stress, findStress);
    var top :- GetTop(ipa);
    var ans := Unstressed(top);
    if viseme then VisemeOf(visemes, language, ans)
    else Success(Join(" ", CleanupAll(Split(ans, ' '))))
  }

  /** `convert(...)` on its top-only path. */
  method Convert(table: seq<Row>, visemes: VisemeTable, input: WordsIn, keepPunct: bool,
                 stress: StressMarking, findStress: (string, string) -> string,
                 viseme: bool, language: string) returns (r: Result<string>)
    ensures r == ConvertOf(table, visemes, input, keepPunct, stress, findStress, viseme, language)
  {
    var ipa := IpaList(table, input, keepPunct, stress, findStress);
    if ipa.Failure? {
      return Failure(ipa.error);
    }
    var top := GetTop(ipa.value);
    if top.Failure? {
      return Failure(top.error);
    }
    var ans := Replace(Replace(top.value, [Primary], ""), [Secondary], "");
    if viseme {
      r := GetViseme(visemes, language, ans);
      return;
    }
    var final := CleanupWords(Split(ans, ' '));
    r := Success(Join(" ", final));
  }

  /** The loop of `convert` over the words of the top transcription. */
  method CleanupWords(phonemesWords: seq<string>) returns (final: seq<string>)
    ensures final == CleanupAll(phonemesWords)
  {
    final := [];
    for k := 0 to |phonemesWords|
      invariant |final| == k
      invariant forall i :: 0 <= i < k ==> final[i] == Cleanup(phonemesWords[i])
    {
      var w := phonemesWords[k];
      if '*' in w {
        if '$' in w {
          final := final + [Upper(Replace(Replace(w, "*", ""), "$", "")) + "z"];
        } else {
          final := final + [Upper(Replace(w, "*", ""))];
        }
      } else {
        final := final + [w];
      }
    }
  }

  /** The cleanup works word by word: as many words come out as go in, each
      the cleanup of the word in the same place. */
  lemma CleanupWordwise(ans: string)
    ensures var ws := Split(ans, ' ');
      var out := Split(Join(" ", CleanupAll(ws)), ' ');
      |out| == |ws| && forall i :: 0 <= i < |ws| ==> out[i] == Cleanup(ws[i])
  {
    var ws := Split(ans, ' ');
    var cleaned := CleanupAll(ws);
    forall i | 0 <= i < |ws|
      ensures ' ' !in cleaned[i]
    {
      if '*' in ws[i] {
        UnresolvedSpaceFree(ws[i]);
      }
    }
    SplitJoin(cleaned, ' ');
  }

  /** Removing the stress glyphs leaves none. */
  lemma UnstressedHasNoGlyph(s: string)
    ensures Primary !in Unstressed(s) && Secondary !in Unstressed(s)
  {
    var once := Replace(s, [Primary], "");
    ReplaceCharRemoves(s, Primary);
    ReplaceCharRemoves(once, Secondary);
  }

  /** Capitalising keeps every character that is not a lowercase letter. */
  lemma UpperKeeps(s: string, g: char)
    requires !IsUpper(g)
    ensures g in Upper(s) ==> g in s
  {
    if g in Upper(s) {
      var i :| 0 <= i < |Upper(s)| && Upper(s)[i] == g;
      assert s[i] == g;
    }
  }

  /** The cleanup makes no character other than capitals and "z". */
  lemma CleanupKeeps(w: string, g: char)
    requires !IsUpper(g) && g != 'z'
    ensures g in Cleanup(w) ==> g in w
  {
    if '*' in w {
      var a := Replace(w, "*", "");
      ReplaceCharRemoves(w, '*');
      UpperKeeps(a, g);
      if '$' in w {
        ReplaceCharRemoves(a, '$');
        UpperKeeps(Replace(a, "$", ""), g);
      }
    }
  }

  /** The output of `convert` without visemes holds no stress glyph. */
  lemma ConvertHasNoGlyph(ans: string)
    requires Primary !in ans && Secondary !in ans
    ensures var out := Join(" ", CleanupAll(Split(ans, ' ')));
      Primary !in out && Secondary !in out
  {
    var ws := Split(ans, ' ');
    var cleaned := CleanupAll(ws);
    SplitChars(ans, ' ');
    forall i | 0 <= i < |cleaned|
      ensures Primary !in cleaned[i] && Secondary !in cleaned[i]
    {
      CleanupKeeps(ws[i], Primary);
      CleanupKeeps(ws[i], Secondary);
    }
    JoinChars(" ", cleaned, Primary);
    JoinChars(" ", cleaned, Secondary);
  }

  /** A successful `ipa_list` always has a top transcription. */
  lemma TopExists(table: seq<Row>, input: WordsIn, keepPunct: bool, stress: StressMarking,
                  findStress: (string, string) -> string)
    requires IpaOf(table, input, keepPunct, stress, findStress).Success?
    ensures GetTop(IpaOf(table, input, keepPunct, stress, findStress).value).Success?
  {
    IpaShape(table, input, keepPunct, stress, findStress);
  }

  // ---------------------------------------------------------------------
  // One word out per word in
  // ---------------------------------------------------------------------

  /** When no IPA form holds a space: a table of plain ARPAbet
      pronunciations and, with stress marks, a `find_stress` that leaves no
      space in the marked result of any marker-safe candidate (every
      candidate `get_cmu` builds over such a table is one). */
  ghost predicate SpaceSafe(table: seq<Row>, stress: StressMarking, findStress: (string, string) -> string) {
    PlainTable(table) &&
    (stress.Marks? ==> forall w :: MarkerSafe(w) ==> MarkedSpaceFree(w, stress, findStress))
  }

  /** A `find_stress` that passes its candidate through unchanged is safe. */
  lemma PassThroughIsSafe(table: seq<Row>, kind: string)
    requires PlainTable(table)
    ensures SpaceSafe(table, Marks(kind), (w: string, k: string) => w)
  {
    var fs := (w: string, k: string) => w;
    forall w | MarkerSafe(w)
      ensures MarkedSpaceFree(w, Marks(kind), fs)
    {
      if '_' !in w && |w| >= |IgnoreMarker| {
        assert w[0] != IgnoreMarker[0];
      }
    }
  }

  /** The parts of every triple `ipa_list` builds hold no whitespace. */
  lemma {:induction false} TriplesNoSpace(ws: seq<string>)
    requires Triples(ws).Success?
    ensures var ts := Triples(ws).value;
      forall i :: 0 <= i < |ts| ==> NoSpace(ts[i].prefix) && NoSpace(ts[i].core) && NoSpace(ts[i].suffix)
    decreases |ws|
  {
    if ws != [] {
      TriplesNoSpace(ws[..|ws| - 1]);
      var tokens := SplitWs(Lower(ws[|ws| - 1]));
      TokenTripleNoSpace(tokens[0]);
    }
  }

  lemma NoSpaceHasNoBlank(w: string)
    requires NoSpace(w)
    ensures ' ' !in w
  {
    assert IsSpace(' ');
  }

  /** No candidate of `ipa_list` holds a space, with or without the
      punctuation around it, when the forms are space-safe. */
  lemma IpaSpaceFree(table: seq<Row>, input: WordsIn, keepPunct: bool, stress: StressMarking,
                     findStress: (string, string) -> string)
    requires SpaceSafe(table, stress, findStress)
    requires IpaOf(table, input, keepPunct, stress, findStress).Success?
    ensures var r := IpaOf(table, input, keepPunct, stress, findStress).value;
      forall i, j :: 0 <= i < |r| && 0 <= j < |r[i]| ==> ' ' !in r[i][j]
  {
    var words := Triples(Items(input)).value;
    TriplesNoSpace(Items(input));
    var cmu := Candidates(table, words);
    forall i, j | 0 <= i < |cmu| && 0 <= j < |cmu[i]|
      ensures MarkedSpaceFree(cmu[i][j], stress, findStress)
    {
      NoSpaceHasNoBlank(words[i].core);
      ResolveMarkerSafe(table, words[i].core);
      if stress.NoMarks? {
        PrepareMarkerSafe(cmu[i][j], findStress);
      }
    }
    CmuIpaSpaceFree(cmu, true, stress, findStress);
    if keepPunct {
      CmuIpaShape(cmu, true, stress, findStress);
      var lists := CmuIpa(cmu, true, stress, findStress).value.lists;
      var r := WrapAll(words, lists);
      forall i, j | 0 <= i < |r| && 0 <= j < |r[i]|
        ensures ' ' !in r[i][j]
      {
        NoSpaceHasNoBlank(words[i].prefix);
        NoSpaceHasNoBlank(words[i].suffix);
        assert r[i][j] == words[i].prefix + lists[i][j] + words[i].suffix;
      }
    }
  }

  /** Removing the stress glyphs distributes over concatenation. */
  lemma UnstressedAppend(a: string, b: string)
    ensures Unstressed(a + b) == Unstressed(a) + Unstressed(b)
  {
    ReplaceCharAppend(a, b, Primary);
    ReplaceCharAppend(Replace(a, [Primary], ""), Replace(b, [Primary], ""), Secondary);
  }

  function UnstressedAll(ws: seq<string>): (r: seq<string>)
    ensures |r| == |ws|
  {
    seq(|ws|, i requires 0 <= i < |ws| => Unstressed(ws[i]))
  }

  /** Removing the stress glyphs from a space-joined text removes them
      word by word and keeps the spaces. */
  lemma {:induction false} UnstressedJoin(ws: seq<string>)
    ensures Unstressed(Join(" ", ws)) == Join(" ", UnstressedAll(ws))
    decreases |ws|
  {
    if |ws| > 1 {
      UnstressedJoin(ws[1..]);
      UnstressedAppend(ws[0] + " ", Join(" ", ws[1..]));
      UnstressedAppend(ws[0], " ");
      ReplaceCharAbsent(" ", Primary);
      ReplaceCharAbsent(" ", Secondary);
      assert UnstressedAll(ws)[1..] == UnstressedAll(ws[1..]);
    } else if |ws| == 1 {
      assert UnstressedAll(ws) == [Unstressed(ws[0])];
    }
  }

  /** The words of the stress-free top transcription are the top
      candidates of the items with their glyphs removed. */
  lemma UnstressedTop(ipa: seq<seq<string>>)
    requires ipa != [] && NoneEmpty(ipa)
    requires forall i, j :: 0 <= i < |ipa| && 0 <= j < |ipa[i]| ==> ' ' !in ipa[i][j]
    ensures GetTop(ipa).Success?
    ensures Split(Unstressed(GetTop(ipa).value), ' ') == UnstressedAll(Lasts(ipa))
  {
    var lasts := Lasts(ipa);
    TopWords(ipa);
    UnstressedJoin(lasts);
    var us := UnstressedAll(lasts);
    forall i | 0 <= i < |us|
      ensures ' ' !in us[i]
    {
      assert ' ' !in lasts[i];
      ReplaceCharRemoves(lasts[i], Primary);
      ReplaceCharRemoves(Replace(lasts[i], [Primary], ""), Secondary);
    }
    SplitJoin(us, ' ');
  }

  /** The cleanup of the stress-free top transcription keeps one word per
      list: word `i` is the cleaned-up top candidate of list `i`. */
  lemma CleanupTop(ipa: seq<seq<string>>)
    requires ipa != [] && NoneEmpty(ipa)
    requires forall i, j :: 0 <= i < |ipa| && 0 <= j < |ipa[i]| ==> ' ' !in ipa[i][j]
    ensures GetTop(ipa).Success?
    ensures var out := Join(" ", CleanupAll(Split(Unstressed(GetTop(ipa).value), ' ')));
      var top := Lasts(ipa);
      var words := Split(out, ' ');
      |words| == |ipa| &&
      (forall i :: 0 <= i < |words| ==> words[i] == Cleanup(Unstressed(top[i]))) &&
      Primary !in out && Secondary !in out
  {
    UnstressedTop(ipa);
    var ans := Unstressed(GetTop(ipa).value);
    CleanupWordwise(ans);
    UnstressedHasNoGlyph(GetTop(ipa).value);
    ConvertHasNoGlyph(ans);
  }

  /** `convert` on its top-only path, step by step: `ipa_list`, then
      `get_top`, then the stress glyphs removed. */
  lemma ConvertSteps(table: seq<Row>, visemes: VisemeTable, input: WordsIn, keepPunct: bool,
                     stress: StressMarking, findStress: (string, string) -> string,
                     viseme: bool, language: string)
    requires ConvertOf(table, visemes, input, keepPunct, stress, findStress, viseme, language).Success?
    ensures IpaOf(table, input, keepPunct, stress, findStress).Success?
    ensures var ipa := IpaOf(table, input, keepPunct, stress, findStress).value;
      GetTop(ipa).Success? &&
      var ans := Unstressed(GetTop(ipa).value);
      ConvertOf(table, visemes, input, keepPunct, stress, findStress, viseme, language) ==
        if viseme then VisemeOf(visemes, language, ans)
        else Success(Join(" ", CleanupAll(Split(ans, ' '))))
  {
  }

  /** Without visemes, the output of `convert` holds no stress glyph,
      whatever the input. */
  lemma ConvertOutputHasNoGlyph(table: seq<Row>, visemes: VisemeTable, input: WordsIn, keepPunct: bool,
                                stress: StressMarking, findStress: (string, string) -> string, language: string)
    requires ConvertOf(table, visemes, input, keepPunct, stress, findStress, false, language).Success?
    ensures var out := ConvertOf(table, visemes, input, keepPunct, stress, findStress, false, language).value;
      Primary !in out && Secondary !in out
  {
    ConvertSteps(table, visemes, input, keepPunct, stress, findStress, false, language);
    var top := GetTop(IpaOf(table, input, keepPunct, stress, findStress).value).value;
    UnstressedHasNoGlyph(top);
    ConvertHasNoGlyph(Unstressed(top));
  }

  /** Without visemes, `convert` gives one word per item: word `i` is the
      top candidate of item `i` with its stress glyphs removed and its
      marker cleaned up, and no stress glyph is left anywhere. */
  lemma ConvertKeepsWords(table: seq<Row>, visemes: VisemeTable, input: WordsIn, keepPunct: bool,
                          stress: StressMarking, findStress: (string, string) -> string, language: string)
    requires Items(input) != [] && SpaceSafe(table, stress, findStress)
    requires ConvertOf(table, visemes, input, keepPunct, stress, findStress, false, language).Success?
    ensures IpaOf(table, input, keepPunct, stress, findStress).Success?
    ensures var ipa := IpaOf(table, input, keepPunct, stress, findStress).value;
      |ipa| == |Items(input)| && NoneEmpty(ipa)
    ensures var out := ConvertOf(table, visemes, input, keepPunct, stress, findStress, false, language).value;
      var top := Lasts(IpaOf(table, input, keepPunct, stress, findStress).value);
      var words := Split(out, ' ');
      |words| == |Items(input)| &&
      (forall i :: 0 <= i < |words| ==> words[i] == Cleanup(Unstressed(top[i]))) &&
      Primary !in out && Secondary !in out
  {
    ConvertSteps(table, visemes, input, keepPunct, stress, findStress, false, language);
    var ipa := IpaOf(table, input, keepPunct, stress, findStress).value;
    IpaShape(table, input, keepPunct, stress, findStress);
    IpaSpaceFree(table, input, keepPunct, stress, findStress);
    CleanupTop(ipa);
  }

  /** With visemes and a table of space-free visemes, `convert` also gives
      one word per item: word `i` is the viseme form of item `i`'s top
      candidate with its stress glyphs removed. */
  lemma ConvertVisemesKeepWords(table: seq<Row>, visemes: VisemeTable, input: WordsIn, keepPunct: bool,
                                stress: StressMarking, findStress: (string, string) -> string, language: string)
    requires Items(input) != [] && SpaceSafe(table, stress, findStress) && SpaceFree(visemes)
    requires ConvertOf(table, visemes, input, keepPunct, stress, findStress, true, language).Success?
    ensures IpaOf(table, input, keepPunct, stress, findStress).Success?
    ensures var ipa := IpaOf(table, input, keepPunct, stress, findStress).value;
      |ipa| == |Items(input)| && NoneEmpty(ipa)
    ensures var out := ConvertOf(table, visemes, input, keepPunct, stress, findStress, true, language).value;
      var top := Lasts(IpaOf(table, input, keepPunct, stress, findStress).value);
      var words := Split(out, ' ');
      |words| == |Items(input)| &&
      forall i :: 0 <= i < |words| ==> Success(words[i]) == VisemeWord(visemes, language, Unstressed(top[i]))
  {
    ConvertSteps(table, visemes, input, keepPunct, stress, findStress, true, language);
    var ipa := IpaOf(table, input, keepPunct, stress, findStress).value;
    IpaShape(table, input, keepPunct, stress, findStress);
    IpaSpaceFree(table, input, keepPunct, stress, findStress);
    UnstressedTop(ipa);
    VisemeWordsKept(visemes, language, Unstressed(GetTop(ipa).value));
  }
}
