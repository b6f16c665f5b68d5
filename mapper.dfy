/** `cmu_to_ipa`: turning each CMU candidate into IPA, piece by piece, and
    each word's candidates into `sorted(set(...))`. The stress module's
    `find_stress` is a parameter. */
module Mapper {
  import opened Text
  import opened Wrappers
  import opened Ordering
  import opened Resolver

  /** `stress_marking`: falsy (None, False or ""), or the kind of marks
      `find_stress` is asked for. `Marks` stands for a truthy value only, so
      its kind is never "" (an empty kind is `NoMarks`). */
  datatype StressMarking = NoMarks | Marks(kind: string)

  /** The primary and secondary stress glyphs. */
  const Primary: char := 'ˈ'
  const Secondary: char := 'ˌ'

  predicate IsGlyph(c: char) { c == Primary || c == Secondary }

  /** The 25 ARPAbet symbols `cmu_to_ipa` translates; a piece outside this
      table is copied as it is. */
  const Symbols: map<string, string> := map[
    "a" := "ə", "ey" := "e", "aa" := "ɑ", "ae" := "æ", "ah" := "ə",
    "ao" := "ɔ", "aw" := "aʊ", "ay" := "aɪ", "ch" := "ʧ", "dh" := "ð",
    "eh" := "ɛ", "er" := "ər", "hh" := "h", "ih" := "ɪ", "jh" := "ʤ",
    "ng" := "ŋ", "ow" := "oʊ", "oy" := "ɔɪ", "sh" := "ʃ", "th" := "θ",
    "uh" := "ʊ", "uw" := "u", "zh" := "ʒ", "iy" := "i", "y" := "j"]

  /** No IPA symbol holds an ASCII digit. */
  lemma SymbolsHaveNoDigits()
    ensures forall k :: k in Symbols ==> forall c :: c in Symbols[k] ==> !IsDigit(c)
  {
  }

  /** A candidate after the stress step: `find_stress` when marks are asked
      for; otherwise the stress digits are dropped, unless nothing but
      digits would be left once the marker is removed. */
  function Prepare(word: string, stress: StressMarking, findStress: (string, string) -> string): string {
    match stress
    case Marks(kind) => findStress(word, kind)
    case NoMarks =>
      if RemoveDigits(Replace(word, IgnoreMarker, "")) == "" then word else RemoveDigits(word)
  }

  /** One space-separated piece of a candidate: a symbol of the table, with
      the stress glyph in front of it kept in front. */
  function PieceIpa(piece: string): string
    requires piece != []
  {
    if IsGlyph(piece[0]) then
      if piece[1..] in Symbols then [piece[0]] + Symbols[piece[1..]] else piece
    else if piece in Symbols then Symbols[piece] else piece
  }

  /** The pieces' IPA, concatenated; `piece[0]` on an empty piece is an
      IndexError. */
  function PiecesIpa(pieces: seq<string>): Result<string>
  {
    if pieces == [] then Success("")
    else
      var init := PiecesIpa(pieces[..|pieces| - 1]);
      var last := pieces[|pieces| - 1];
      if init.Failure? then init
      else if last == [] then Failure("IndexError")
      else Success(init.value + PieceIpa(last))
  }

  /** Whether one of the pieces starts with a stress glyph, which sets `mark`. */
  predicate AnyGlyph(pieces: seq<string>) {
    exists i :: 0 <= i < |pieces| && pieces[i] != [] && IsGlyph(pieces[i][0])
  }

  /** A glyph among the first `i + 1` pieces is one among the first `i` or
      at the start of piece `i`. */
  lemma AnyGlyphSnoc(pieces: seq<string>, i: nat)
    requires i < |pieces| && pieces[i] != []
    ensures AnyGlyph(pieces[..i + 1]) == (AnyGlyph(pieces[..i]) || IsGlyph(pieces[i][0]))
  {
    var longer, shorter := pieces[..i + 1], pieces[..i];
    assert forall j :: 0 <= j < i ==> longer[j] == shorter[j];
    assert longer[i] == pieces[i];
  }

  /** The two swaps that put the stress glyph after a syllabic "ə" or "i". */
  const SwapList: seq<(string, string)> :=
    [([Primary, 'ə', 'r'], ['ə', Primary, 'r']), ([Primary, 'i', 'e'], ['i', Primary, 'e'])]

  /** One swap: every occurrence is replaced unless the form starts with it. */
  function Swap(form: string, pat: string, rep: string): string
    requires pat != []
  {
    if StartsWith(form, pat) then form else Replace(form, pat, rep)
  }

  function Swaps(form: string, swaps: seq<(string, string)>): string
    requires forall i :: 0 <= i < |swaps| ==> swaps[i].0 != []
  {
    if swaps == [] then form
    else
      var last := swaps[|swaps| - 1];
      Swap(Swaps(form, swaps[..|swaps| - 1]), last.0, last.1)
  }

  /** An IPA form, and the truthiness of `mark` after producing it. */
  datatype Marked = Marked(form: string, mark: bool)

  /** The IPA form of one candidate. An untranscribable token loses its
      marker and, while `mark` is truthy, gains "*" unless it is only
      digits; any other candidate is translated piece by piece. */
  function CandidateIpa(word: string, mark: bool, stress: StressMarking,
                        findStress: (string, string) -> string): Result<Marked>
  {
    var w := Prepare(word, stress, findStress);
    if StartsWith(w, IgnoreMarker) then
      var f := Replace(w, IgnoreMarker, "");
      var starred := if mark && RemoveDigits(f) != "" then f + "*" else f;
      Success(Marked(Swaps(starred, SwapList), mark))
    else
      var pieces := Split(w, ' ');
      var r := PiecesIpa(pieces);
      if r.Failure? then Failure(r.error)
      else Success(Marked(Swaps(r.value, SwapList), mark || AnyGlyph(pieces)))
  }

  /** The IPA forms of one word's candidates, in candidate order. */
  datatype Forms = Forms(forms: seq<string>, mark: bool)

  function WordListIpa(wordList: seq<string>, mark: bool, stress: StressMarking,
                       findStress: (string, string) -> string): Result<Forms>
  {
    if wordList == [] then Success(Forms([], mark))
    else
      var init := WordListIpa(wordList[..|wordList| - 1], mark, stress, findStress);
      if init.Failure? then init
      else
        var c := CandidateIpa(wordList[|wordList| - 1], init.value.mark, stress, findStress);
        if c.Failure? then Failure(c.error)
        else Success(Forms(init.value.forms + [c.value.form], c.value.mark))
  }

  /** The result of `cmu_to_ipa` so far: one sorted, duplicate-free list per word. */
  datatype Ipa = Ipa(lists: seq<seq<string>>, mark: bool)

  function CmuIpa(cmuList: seq<seq<string>>, mark: bool, stress: StressMarking,
                  findStress: (string, string) -> string): Result<Ipa>
  {
    if cmuList == [] then Success(Ipa([], mark))
    else
      var init := CmuIpa(cmuList[..|cmuList| - 1], mark, stress, findStress);
      if init.Failure? then init
      else
        var w := WordListIpa(cmuList[|cmuList| - 1], init.value.mark, stress, findStress);
        if w.Failure? then Failure(w.error)
        else Success(Ipa(init.value.lists + [SortedDistinct(w.value.forms)], w.value.mark))
  }

  // ---------------------------------------------------------------------
  // The methods
  // ---------------------------------------------------------------------

  /** An empty piece makes the whole candidate fail. */
  lemma {:induction false} PiecesIpaEmptyPiece(pieces: seq<string>, i: nat)
    requires i < |pieces| && pieces[i] == [] && PiecesIpa(pieces[..i]).Success?
    ensures PiecesIpa(pieces) == Failure("IndexError")
    decreases |pieces|
  {
    if i < |pieces| - 1 {
      var init := pieces[..|pieces| - 1];
      assert init[..i] == pieces[..i];
      PiecesIpaEmptyPiece(init, i);
    } else {
      assert pieces[..|pieces| - 1] == pieces[..i];
    }
  }

  /** A failed prefix of the candidates makes the word fail. */
  lemma {:induction false} WordListPrefixFails(wordList: seq<string>, n: nat, mark: bool,
                                               stress: StressMarking, findStress: (string, string) -> string)
    requires n <= |wordList| && WordListIpa(wordList[..n], mark, stress, findStress).Failure?
    ensures WordListIpa(wordList, mark, stress, findStress) == WordListIpa(wordList[..n], mark, stress, findStress)
    decreases |wordList|
  {
    if n < |wordList| {
      var init := wordList[..|wordList| - 1];
      assert init[..n] == wordList[..n];
      WordListPrefixFails(init, n, mark, stress, findStress);
    } else {
      assert wordList[..n] == wordList;
    }
  }

  /** A failed prefix of the words makes the whole conversion fail. */
  lemma {:induction false} CmuPrefixFails(cmuList: seq<seq<string>>, n: nat, mark: bool,
                                          stress: StressMarking, findStress: (string, string) -> string)
    requires n <= |cmuList| && CmuIpa(cmuList[..n], mark, stress, findStress).Failure?
    ensures CmuIpa(cmuList, mark, stress, findStress) == CmuIpa(cmuList[..n], mark, stress, findStress)
    decreases |cmuList|
  {
    if n < |cmuList| {
      var init := cmuList[..|cmuList| - 1];
      assert init[..n] == cmuList[..n];
      CmuPrefixFails(init, n, mark, stress, findStress);
    } else {
      assert cmuList[..n] == cmuList;
    }
  }

  function Lists(r: Result<Ipa>): Result<seq<seq<string>>> {
    if r.Failure? then Failure(r.error) else Success(r.value.lists)
  }

  /** The piece loop of `cmu_to_ipa`: the IPA of each piece appended in
      turn, `mark` set by a piece that starts with a stress glyph. */
  method TranslatePieces(pieces: seq<string>, mark0: bool) returns (r: Result<string>, mark: bool)
    ensures r == PiecesIpa(pieces)
    ensures r.Success? ==> mark == (mark0 || AnyGlyph(pieces))
  {
    var ipaForm := "";
    mark := mark0;
    for i := 0 to |pieces|
      invariant PiecesIpa(pieces[..i]) == Success(ipaForm)
      invariant mark == (mark0 || AnyGlyph(pieces[..i]))
    {
      assert pieces[..i + 1][..i] == pieces[..i];
      var piece := pieces[i];
      if piece == [] {
        PiecesIpaEmptyPiece(pieces, i);
        return Failure("IndexError"), mark;
      }
      var ipa, marked := PieceStep(piece);
      if marked {
        mark := true;
      }
      ipaForm := ipaForm + ipa;
      AnyGlyphSnoc(pieces, i);
    }
    assert pieces[..|pieces|] == pieces;
    r := Success(ipaForm);
  }

  /** One turn of the piece loop: the IPA of a non-empty piece, and whether
      it starts with a stress glyph. */
  method PieceStep(piece: string) returns (ipa: string, marked: bool)
    requires piece != []
    ensures ipa == PieceIpa(piece)
    ensures marked == IsGlyph(piece[0])
  {
    marked := false;
    var unmarked := piece;
    if IsGlyph(piece[0]) {
      marked := true;
      unmarked := piece[1..];
    }
    if unmarked in Symbols {
      if marked {
        ipa := [piece[0]] + Symbols[unmarked];
      } else {
        ipa := Symbols[unmarked];
      }
    } else {
      ipa := piece;
    }
  }

  /** The swap loop of `cmu_to_ipa`. */
  method ApplySwaps(form: string) returns (ipaForm: string)
    ensures ipaForm == Swaps(form, SwapList)
  {
    ipaForm := form;
    for s := 0 to |SwapList|
      invariant ipaForm == Swaps(form, SwapList[..s])
    {
      assert SwapList[..s + 1][..s] == SwapList[..s];
      var sym := SwapList[s];
      if !StartsWith(ipaForm, sym.0) {
        ipaForm := Replace(ipaForm, sym.0, sym.1);
      }
    }
    assert SwapList[..|SwapList|] == SwapList;
  }

  /** The body of the candidate loop of `cmu_to_ipa`. */
  method CandidateForm(candidate: string, mark0: bool, stress: StressMarking,
                       findStress: (string, string) -> string) returns (r: Result<Marked>)
    ensures r == CandidateIpa(candidate, mark0, stress, findStress)
  {
    var word := candidate;
    var mark := mark0;
    match stress {
      case Marks(kind) =>
        word := findStress(word, kind);
      case NoMarks =>
        if RemoveDigits(Replace(word, IgnoreMarker, "")) != "" {
          word := RemoveDigits(word);
        }
    }
    var ipaForm := "";
    if StartsWith(word, IgnoreMarker) {
      ipaForm := Replace(word, IgnoreMarker, "");
      if mark {
        if RemoveDigits(ipaForm) != "" {
          ipaForm := ipaForm + "*";
        }
      }
    } else {
      var translated;
      translated, mark := TranslatePieces(Split(word, ' '), mark);
      if translated.Failure? {
        return Failure(translated.error);
      }
      ipaForm := translated.value;
    }
    ipaForm := ApplySwaps(ipaForm);
    return Success(Marked(ipaForm, mark));
  }

  /** The candidate loop of `cmu_to_ipa` for one word. */
  method WordForms(wordList: seq<string>, mark0: bool, stress: StressMarking,
                   findStress: (string, string) -> string) returns (r: Result<Forms>)
    ensures r == WordListIpa(wordList, mark0, stress, findStress)
  {
    var mark := mark0;
    var ipaWordList: seq<string> := [];
    for j := 0 to |wordList|
      invariant WordListIpa(wordList[..j], mark0, stress, findStress) == Success(Forms(ipaWordList, mark))
    {
      var c := CandidateForm(wordList[j], mark, stress, findStress);
      if c.Failure? {
        assert wordList[..j + 1][..j] == wordList[..j];
        WordListPrefixFails(wordList, j + 1, mark0, stress, findStress);
        return Failure(c.error);
      }
      WordListStep(wordList, j, mark0, stress, findStress, ipaWordList, mark, c.value);
      ipaWordList := ipaWordList + [c.value.form];
      mark := c.value.mark;
    }
    assert wordList[..|wordList|] == wordList;
    r := Success(Forms(ipaWordList, mark));
  }

  /** One more candidate extends the forms of the first `j` candidates. */
  lemma WordListStep(wordList: seq<string>, j: nat, mark0: bool, stress: StressMarking,
                     findStress: (string, string) -> string, forms: seq<string>, mark: bool, m: Marked)
    requires j < |wordList|
    requires WordListIpa(wordList[..j], mark0, stress, findStress) == Success(Forms(forms, mark))
    requires CandidateIpa(wordList[j], mark, stress, findStress) == Success(m)
    ensures WordListIpa(wordList[..j + 1], mark0, stress, findStress) == Success(Forms(forms + [m.form], m.mark))
  {
    assert wordList[..j + 1][..j] == wordList[..j];
  }

  /** `cmu_to_ipa(cmu_list, mark, stress_marking)`. */
  method CmuToIpa(cmuList: seq<seq<string>>, mark0: bool, stress: StressMarking,
                  findStress: (string, string) -> string) returns (r: Result<seq<seq<string>>>)
    ensures r == Lists(CmuIpa(cmuList, mark0, stress, findStress))
  {
    var ipaList: seq<seq<string>> := [];
    var mark := mark0;
    for i := 0 to |cmuList|
      invariant CmuIpa(cmuList[..i], mark0, stress, findStress) == Success(Ipa(ipaList, mark))
    {
      assert cmuList[..i + 1][..i] == cmuList[..i];
      var w := WordForms(cmuList[i], mark, stress, findStress);
      if w.Failure? {
        CmuPrefixFails(cmuList, i + 1, mark0, stress, findStress);
        return Failure(w.error);
      }
      ipaList := ipaList + [SortedDistinct(w.value.forms)];
      mark := w.value.mark;
    }
    assert cmuList[..|cmuList|] == cmuList;
    r := Success(ipaList);
  }

  // ---------------------------------------------------------------------
  // Properties
  // ---------------------------------------------------------------------

  predicate DigitFree(s: string) { forall c :: c in s ==> !IsDigit(c) }

  /** One swap keeps the characters and, unless the form starts with the
      pattern, leaves no occurrence of it. */
  lemma SwapEffect(form: string, a: char, b: char, c: char)
    requires a != b && b != c && a != c
    ensures var r := Swap(form, [a, b, c], [b, a, c]);
      multiset(r) == multiset(form) &&
      (StartsWith(form, [a, b, c]) || !Occurs(r, [a, b, c]))
  {
    assert multiset([b, a, c]) == multiset([a, b, c]);
    ReplacePermutes(form, [a, b, c], [b, a, c]);
    SwapLeavesNoOccurrence(form, a, b, c);
  }

  /** The two swaps, written out. */
  lemma SwapsTwice(form: string)
    ensures Swaps(form, SwapList) ==
      Swap(Swap(form, [Primary, 'ə', 'r'], ['ə', Primary, 'r']), [Primary, 'i', 'e'], ['i', Primary, 'e'])
  {
    assert SwapList[..|SwapList| - 1] == SwapList[..1];
    assert SwapList[..1][..0] == [];
    assert Swaps(form, SwapList[..1]) == Swap(Swaps(form, []), [Primary, 'ə', 'r'], ['ə', Primary, 'r']);
  }

  /** The swaps only move characters about. */
  lemma SwapsPermute(form: string)
    ensures multiset(Swaps(form, SwapList)) == multiset(form)
  {
    SwapsTwice(form);
    var once := Swap(form, [Primary, 'ə', 'r'], ['ə', Primary, 'r']);
    SwapEffect(form, Primary, 'ə', 'r');
    SwapEffect(once, Primary, 'i', 'e');
  }

  lemma SwapsDigitFree(form: string)
    requires DigitFree(form)
    ensures DigitFree(Swaps(form, SwapList))
  {
    SwapsPermute(form);
    forall c | c in Swaps(form, SwapList)
      ensures !IsDigit(c)
    {
      assert c in multiset(Swaps(form, SwapList));
    }
  }

  /** Pieces without digits translate to IPA without digits. */
  lemma {:induction false} PiecesIpaDigitFree(pieces: seq<string>)
    requires forall i :: 0 <= i < |pieces| ==> DigitFree(pieces[i])
    requires PiecesIpa(pieces).Success?
    ensures DigitFree(PiecesIpa(pieces).value)
    decreases |pieces|
  {
    if pieces != [] {
      var init := pieces[..|pieces| - 1];
      var last := pieces[|pieces| - 1];
      PiecesIpaDigitFree(init);
      SymbolsHaveNoDigits();
      if IsGlyph(last[0]) && last[1..] in Symbols {
        assert forall c :: c in [last[0]] + Symbols[last[1..]] ==> c == last[0] || c in Symbols[last[1..]];
      }
    }
  }

  /** Without stress marks, every stress digit is dropped: an IPA form holds
      no digit unless its candidate was nothing but digits once the marker
      is removed. */
  lemma NoMarksDropsDigits(word: string, mark: bool, findStress: (string, string) -> string)
    requires RemoveDigits(Replace(word, IgnoreMarker, "")) != ""
    requires CandidateIpa(word, mark, NoMarks, findStress).Success?
    ensures DigitFree(CandidateIpa(word, mark, NoMarks, findStress).value.form)
  {
    var w := RemoveDigits(word);
    assert Prepare(word, NoMarks, findStress) == w;
    if StartsWith(w, IgnoreMarker) {
      var f := Replace(w, IgnoreMarker, "");
      ReplaceChars(w, IgnoreMarker, "");
      var starred := if mark && RemoveDigits(f) != "" then f + "*" else f;
      assert DigitFree(starred);
      SwapsDigitFree(starred);
    } else {
      var pieces := Split(w, ' ');
      RemoveDigitsChars(word);
      SplitChars(w, ' ');
      PiecesIpaDigitFree(pieces);
      SwapsDigitFree(PiecesIpa(pieces).value);
    }
  }

  /** The marker comes off a marked token whose text has no capital I, so
      the marker cannot reappear inside it. */
  lemma UnmarkMarked(t: string)
    requires 'I' !in t
    ensures StartsWith(IgnoreMarker + t, IgnoreMarker)
    ensures Replace(IgnoreMarker + t, IgnoreMarker, "") == t
  {
    var word := IgnoreMarker + t;
    assert word[..|IgnoreMarker|] == IgnoreMarker && word[|IgnoreMarker|..] == t;
    MissingCharNoOccurrence(t, IgnoreMarker, 'I');
    ReplaceAbsent(t, IgnoreMarker, "");
  }

  lemma RemoveDigitsMarked(t: string)
    ensures RemoveDigits(IgnoreMarker + t) == IgnoreMarker + RemoveDigits(t)
  {
    RemoveDigitsAppend(IgnoreMarker, t);
    MarkerDigitFree();
  }

  lemma MarkerDigitFree()
    ensures RemoveDigits(IgnoreMarker) == IgnoreMarker
  {
    var m := IgnoreMarker;
    forall i | 0 <= i < |m|
      ensures !IsDigit(m[i])
    {
    }
    RemoveDigitsNoDigits(m);
  }

  /** An untranscribable token without stress marks: the marker goes, the
      digits go unless nothing else is left, and "*" is added while `mark`
      is truthy (not to a token of digits only). The token is lowercased,
      as `ipa_list` leaves every core. */
  lemma UnresolvedCandidate(t: string, mark: bool, findStress: (string, string) -> string)
    requires NoUpper(t) && Primary !in t
    ensures CandidateIpa(IgnoreMarker + t, mark, NoMarks, findStress) ==
      Success(Marked(
        if RemoveDigits(t) == "" then t
        else RemoveDigits(t) + (if mark then "*" else ""), mark))
  {
    assert forall i :: 0 <= i < |t| ==> t[i] != 'I';
    UnmarkMarked(t);
    var u := RemoveDigits(t);
    RemoveDigitsChars(t);
    var f := if u == "" then t else u;
    assert Prepare(IgnoreMarker + t, NoMarks, findStress) == IgnoreMarker + f && Replace(IgnoreMarker + f, IgnoreMarker, "") == f by {
      if u != "" {
        RemoveDigitsMarked(t);
        UnmarkMarked(u);
      }
    }
    assert RemoveDigits(f) == u by {
      if u != "" {
        RemoveDigitsNoDigits(u);
      }
    }
    var starred := if mark && u != "" then f + "*" else f;
    assert Primary !in starred;
    NoGlyphNoSwap(starred);
    assert u + "" == u;
    assert CandidateIpa(IgnoreMarker + t, mark, NoMarks, findStress) == Success(Marked(starred, mark));
  }

  /** A form without the primary glyph is left alone by the swaps. */
  lemma NoGlyphNoSwap(form: string)
    requires Primary !in form
    ensures Swaps(form, SwapList) == form
  {
    SwapsTwice(form);
    MissingCharNoOccurrence(form, [Primary, 'ə', 'r'], Primary);
    ReplaceAbsent(form, [Primary, 'ə', 'r'], ['ə', Primary, 'r']);
    MissingCharNoOccurrence(form, [Primary, 'i', 'e'], Primary);
    ReplaceAbsent(form, [Primary, 'i', 'e'], ['i', Primary, 'e']);
  }

  lemma {:induction false} WordListSize(wordList: seq<string>, mark: bool, stress: StressMarking,
                                        findStress: (string, string) -> string)
    requires WordListIpa(wordList, mark, stress, findStress).Success?
    ensures |WordListIpa(wordList, mark, stress, findStress).value.forms| == |wordList|
    decreases |wordList|
  {
    if wordList != [] {
      WordListSize(wordList[..|wordList| - 1], mark, stress, findStress);
    }
  }

  /** The last word's list comes from its candidates' forms. */
  lemma CmuIpaLast(cmuList: seq<seq<string>>, mark: bool, stress: StressMarking,
                   findStress: (string, string) -> string)
    requires cmuList != [] && CmuIpa(cmuList, mark, stress, findStress).Success?
    ensures var init := CmuIpa(cmuList[..|cmuList| - 1], mark, stress, findStress);
      init.Success? &&
      var w := WordListIpa(cmuList[|cmuList| - 1], init.value.mark, stress, findStress);
      w.Success? &&
      CmuIpa(cmuList, mark, stress, findStress).value.lists == init.value.lists + [SortedDistinct(w.value.forms)]
  {
  }

  lemma SortedDistinctEmpty(xs: seq<string>)
    ensures SortedDistinct(xs) == [] <==> xs == []
  {
    if xs != [] {
      assert xs[0] in Elems(xs);
    }
    if SortedDistinct(xs) != [] {
      assert SortedDistinct(xs)[0] in Elems(SortedDistinct(xs));
    }
  }

  /** `cmu_to_ipa` gives one list per word, strictly ascending, empty only
      for a word without candidates. */
  lemma {:induction false} CmuIpaShape(cmuList: seq<seq<string>>, mark: bool, stress: StressMarking,
                                       findStress: (string, string) -> string)
    requires CmuIpa(cmuList, mark, stress, findStress).Success?
    ensures var lists := CmuIpa(cmuList, mark, stress, findStress).value.lists;
      |lists| == |cmuList| &&
      forall i :: 0 <= i < |lists| ==> StrictlySorted(lists[i]) && (lists[i] == [] <==> cmuList[i] == [])
    decreases |cmuList|
  {
    if cmuList != [] {
      var init := cmuList[..|cmuList| - 1];
      CmuIpaLast(cmuList, mark, stress, findStress);
      CmuIpaShape(init, mark, stress, findStress);
      var before := CmuIpa(init, mark, stress, findStress).value;
      var last := cmuList[|cmuList| - 1];
      var forms := WordListIpa(last, before.mark, stress, findStress).value.forms;
      WordListSize(last, before.mark, stress, findStress);
      SortedDistinctEmpty(forms);
      var lists := CmuIpa(cmuList, mark, stress, findStress).value.lists;
      assert lists == before.lists + [SortedDistinct(forms)];
      forall i | 0 <= i < |lists|
        ensures StrictlySorted(lists[i]) && (lists[i] == [] <==> cmuList[i] == [])
      {
        if i < |before.lists| {
          assert lists[i] == before.lists[i] && cmuList[i] == init[i];
          assert StrictlySorted(before.lists[i]) && (before.lists[i] == [] <==> init[i] == []);
        } else {
          assert i == |cmuList| - 1;
          assert lists[i] == SortedDistinct(forms);
          assert |forms| == |last|;
        }
      }
    }
  }

  // ---------------------------------------------------------------------
  // No space inside an IPA form
  // ---------------------------------------------------------------------

  /** No IPA symbol holds a space. */
  lemma SymbolsHaveNoSpace()
    ensures forall k :: k in Symbols ==> ' ' !in Symbols[k]
  {
  }

  /** Pieces without a space translate to IPA without a space. */
  lemma {:induction false} PiecesIpaSpaceFree(pieces: seq<string>)
    requires forall i :: 0 <= i < |pieces| ==> ' ' !in pieces[i]
    requires PiecesIpa(pieces).Success?
    ensures ' ' !in PiecesIpa(pieces).value
    decreases |pieces|
  {
    if pieces != [] {
      var init := pieces[..|pieces| - 1];
      var last := pieces[|pieces| - 1];
      PiecesIpaSpaceFree(init);
      SymbolsHaveNoSpace();
      assert ' ' !in last;
      if IsGlyph(last[0]) && last[1..] in Symbols {
        assert last[0] != ' ';
      }
    }
  }

  lemma SwapsSpaceFree(form: string)
    requires ' ' !in form
    ensures ' ' !in Swaps(form, SwapList)
  {
    SwapsPermute(form);
    assert ' ' !in multiset(form);
  }

  /** After the stress step, a candidate that carries the marker holds no
      space (its text is copied into the IPA form as it is). */
  predicate MarkedSpaceFree(word: string, stress: StressMarking, findStress: (string, string) -> string) {
    var w := Prepare(word, stress, findStress);
    StartsWith(w, IgnoreMarker) ==> ' ' !in w
  }

  /** An IPA form holds no space: a candidate is cut into pieces at its
      spaces, no symbol holds one, and a marked candidate holds none. */
  lemma CandidateSpaceFree(word: string, mark: bool, stress: StressMarking,
                           findStress: (string, string) -> string)
    requires MarkedSpaceFree(word, stress, findStress)
    requires CandidateIpa(word, mark, stress, findStress).Success?
    ensures ' ' !in CandidateIpa(word, mark, stress, findStress).value.form
  {
    var w := Prepare(word, stress, findStress);
    if StartsWith(w, IgnoreMarker) {
      var f := Replace(w, IgnoreMarker, "");
      ReplaceChars(w, IgnoreMarker, "");
      var starred := if mark && RemoveDigits(f) != "" then f + "*" else f;
      assert ' ' !in starred;
      SwapsSpaceFree(starred);
    } else {
      var pieces := Split(w, ' ');
      PiecesIpaSpaceFree(pieces);
      SwapsSpaceFree(PiecesIpa(pieces).value);
    }
  }

  /** Dropping the stress digits keeps a candidate marker-safe. */
  lemma PrepareMarkerSafe(word: string, findStress: (string, string) -> string)
    requires MarkerSafe(word)
    ensures MarkedSpaceFree(word, NoMarks, findStress)
  {
    RemoveDigitsChars(word);
    var w := Prepare(word, NoMarks, findStress);
    if '_' !in word && |w| >= |IgnoreMarker| {
      assert w[0] != IgnoreMarker[0];
    }
  }

  lemma {:induction false} WordListSpaceFree(wordList: seq<string>, mark: bool, stress: StressMarking,
                                             findStress: (string, string) -> string)
    requires forall j :: 0 <= j < |wordList| ==> MarkedSpaceFree(wordList[j], stress, findStress)
    requires WordListIpa(wordList, mark, stress, findStress).Success?
    ensures forall x :: x in WordListIpa(wordList, mark, stress, findStress).value.forms ==> ' ' !in x
    decreases |wordList|
  {
    if wordList != [] {
      var init := wordList[..|wordList| - 1];
      WordListSpaceFree(init, mark, stress, findStress);
      var before := WordListIpa(init, mark, stress, findStress).value;
      CandidateSpaceFree(wordList[|wordList| - 1], before.mark, stress, findStress);
    }
  }

  /** When every candidate is safe, no form of `cmu_to_ipa` holds a space. */
  lemma {:induction false} CmuIpaSpaceFree(cmuList: seq<seq<string>>, mark: bool, stress: StressMarking,
                                           findStress: (string, string) -> string)
    requires forall i, j :: 0 <= i < |cmuList| && 0 <= j < |cmuList[i]| ==>
      MarkedSpaceFree(cmuList[i][j], stress, findStress)
    requires CmuIpa(cmuList, mark, stress, findStress).Success?
    ensures var lists := CmuIpa(cmuList, mark, stress, findStress).value.lists;
      forall i, j :: 0 <= i < |lists| && 0 <= j < |lists[i]| ==> ' ' !in lists[i][j]
    decreases |cmuList|
  {
    if cmuList != [] {
      var init := cmuList[..|cmuList| - 1];
      var last := cmuList[|cmuList| - 1];
      CmuIpaLast(cmuList, mark, stress, findStress);
      CmuIpaSpaceFree(init, mark, stress, findStress);
      var before := CmuIpa(init, mark, stress, findStress).value;
      var forms := WordListIpa(last, before.mark, stress, findStress).value.forms;
      WordListSpaceFree(last, before.mark, stress, findStress);
      var sorted := SortedDistinct(forms);
      forall j | 0 <= j < |sorted|
        ensures ' ' !in sorted[j]
      {
        assert sorted[j] in Elems(sorted);
      }
      var lists := CmuIpa(cmuList, mark, stress, findStress).value.lists;
      assert lists == before.lists + [sorted];
    }
  }
}
