/** `get_viseme`: from a transcription, words separated by single spaces,
    to visemes. A word marked with `*` could not be transcribed and is shown
    in capitals; every other word is read left to right, one IPA symbol at
    a time, or two at a time where the pair is a listed diphthong, and each
    symbol is looked up in the viseme map of the chosen language. The
    table is the contents of `resources/visemes.json`, passed in. */
module Viseme {
  import opened Text
  import opened Wrappers

  /** `VISEMES`: the list under "diphtong" and, per language, a map from
      IPA symbol to viseme. */
  datatype VisemeTable = VisemeTable(diphthongs: seq<string>, languages: map<string, map<string, string>>)

  /** `VISEMES[language][key]`; a missing language or symbol raises KeyError. */
  function Lookup(table: VisemeTable, language: string, key: string): Result<string> {
    if language in table.languages && key in table.languages[language] then
      Success(table.languages[language][key])
    else
      Failure("KeyError")
  }

  /** No viseme of any language holds a space. */
  predicate SpaceFree(table: VisemeTable) {
    forall l, k :: l in table.languages && k in table.languages[l] ==> ' ' !in table.languages[l][k]
  }

  /** `a` followed by the string `r` holds, or the failure of `r`. */
  function Prepend(a: string, r: Result<string>): Result<string> {
    if r.Failure? then r else Success(a + r.value)
  }

  lemma PrependPrepend(a: string, b: string, r: Result<string>)
    ensures Prepend(a, Prepend(b, r)) == Prepend(a + b, r)
  {
    if r.Success? {
      assert a + (b + r.value) == (a + b) + r.value;
    }
  }

  /** The visemes of `w` from position `i` on: a space or an apostrophe is
      copied, a listed diphthong is looked up as one symbol, anything else
      is looked up character by character. */
  function ScanFrom(table: VisemeTable, language: string, w: string, i: nat): (r: Result<string>)
    requires i <= |w|
    ensures r.Failure? ==> r == Failure("KeyError")
    decreases |w| - i
  {
    if i == |w| then Success("")
    else if w[i] == ' ' || w[i] == '\'' then
      Prepend([w[i]], ScanFrom(table, language, w, i + 1))
    else if i + 1 < |w| && w[i..i + 2] in table.diphthongs then
      var v :- Lookup(table, language, w[i..i + 2]);
      Prepend(v, ScanFrom(table, language, w, i + 2))
    else
      var v :- Lookup(table, language, [w[i]]);
      Prepend(v, ScanFrom(table, language, w, i + 1))
  }

  /** The `while` loop of `get_viseme` over one word without `*`. */
  method ScanWord(table: VisemeTable, language: string, w: string) returns (r: Result<string>)
    ensures r == ScanFrom(table, language, w, 0)
  {
    var visemeStr := "";
    var i := 0;
    var whole := ScanFrom(table, language, w, 0);
    if whole.Success? {
      assert "" + whole.value == whole.value;
    }
    while i < |w|
      invariant i <= |w|
      invariant ScanFrom(table, language, w, 0) == Prepend(visemeStr, ScanFrom(table, language, w, i))
      decreases |w| - i
    {
      if w[i] == ' ' || w[i] == '\'' {
        PrependPrepend(visemeStr, [w[i]], ScanFrom(table, language, w, i + 1));
        visemeStr := visemeStr + [w[i]];
      } else if i + 1 < |w| && w[i..i + 2] in table.diphthongs {
        var v := Lookup(table, language, w[i..i + 2]);
        if v.Failure? {
          return Failure("KeyError");
        }
        PrependPrepend(visemeStr, v.value, ScanFrom(table, language, w, i + 2));
        visemeStr := visemeStr + v.value;
        i := i + 1;
      } else {
        var v := Lookup(table, language, [w[i]]);
        if v.Failure? {
          return Failure("KeyError");
        }
        PrependPrepend(visemeStr, v.value, ScanFrom(table, language, w, i + 1));
        visemeStr := visemeStr + v.value;
      }
      i := i + 1;
    }
    assert visemeStr + "" == visemeStr;
    r := Success(visemeStr);
  }

  /** A word marked with `*`: the marks `*` and `$` removed, capitalised,
      and "z" added when it had a `$` (an untranscribable possessive). */
  function Unresolved(w: string): string {
    if '$' in w then Upper(Replace(Replace(w, "*", ""), "$", "")) + "z"
    else Upper(Replace(w, "*", ""))
  }

  /** The viseme form of one word of the transcription. */
  function VisemeWord(table: VisemeTable, language: string, w: string): (r: Result<string>)
    ensures r.Failure? ==> r == Failure("KeyError")
  {
    if '*' in w then Success(Unresolved(w)) else ScanFrom(table, language, w, 0)
  }

  /** The viseme forms of the words `ws`, or KeyError. */
  function VisemeWords(table: VisemeTable, language: string, ws: seq<string>): (r: Result<seq<string>>)
    ensures r.Failure? ==> r == Failure("KeyError")
    ensures r.Success? ==> |r.value| == |ws|
  {
    if ws == [] then Success([])
    else
      var init :- VisemeWords(table, language, ws[..|ws| - 1]);
      var last :- VisemeWord(table, language, ws[|ws| - 1]);
      Success(init + [last])
  }

  /** What `get_viseme(phoneme_map, language)` returns. */
  function VisemeOf(table: VisemeTable, language: string, phonemeMap: string): Result<string> {
    var ws :- VisemeWords(table, language, Split(phonemeMap, ' '));
    Success(Join(" ", ws))
  }

  /** A failure among the first `k` words is a failure of all of them. */
  lemma {:induction false} VisemeWordsPrefixFails(table: VisemeTable, language: string, ws: seq<string>, k: nat)
    requires k <= |ws| && VisemeWords(table, language, ws[..k]).Failure?
    ensures VisemeWords(table, language, ws) == Failure("KeyError")
    decreases |ws|
  {
    if k < |ws| {
      assert ws[..|ws| - 1][..k] == ws[..k];
      VisemeWordsPrefixFails(table, language, ws[..|ws| - 1], k);
    } else {
      assert ws[..k] == ws;
    }
  }

  /** `get_viseme(phoneme_map, language)`. */
  method GetViseme(table: VisemeTable, language: string, phonemeMap: string) returns (r: Result<string>)
    ensures r == VisemeOf(table, language, phonemeMap)
  {
    var phonemeWords := Split(phonemeMap, ' ');
    var visemeWords: seq<string> := [];
    for k := 0 to |phonemeWords|
      invariant VisemeWords(table, language, phonemeWords[..k]) == Success(visemeWords)
    {
      assert phonemeWords[..k + 1][..k] == phonemeWords[..k];
      var w := phonemeWords[k];
      if '*' !in w {
        var v := ScanWord(table, language, w);
        if v.Failure? {
          VisemeWordsPrefixFails(table, language, phonemeWords, k + 1);
          return Failure("KeyError");
        }
        visemeWords := visemeWords + [v.value];
      } else {
        visemeWords := visemeWords + [Unresolved(w)];
      }
    }
    assert phonemeWords[..|phonemeWords|] == phonemeWords;
    r := Success(Join(" ", visemeWords));
  }

  // ---------------------------------------------------------------------
  // Properties
  // ---------------------------------------------------------------------

  /** The reference reading without diphthongs: every symbol on its own. */
  function Symbolwise(table: VisemeTable, language: string, w: string): Result<string>
    decreases |w|
  {
    if w == [] then Success("")
    else if w[0] == ' ' || w[0] == '\'' then Prepend([w[0]], Symbolwise(table, language, w[1..]))
    else
      var v :- Lookup(table, language, [w[0]]);
      Prepend(v, Symbolwise(table, language, w[1..]))
  }

  /** With no diphthongs listed, a word is read one symbol at a time. */
  lemma {:induction false} NoDiphthongs(table: VisemeTable, language: string, w: string, i: nat)
    requires table.diphthongs == [] && i <= |w|
    ensures ScanFrom(table, language, w, i) == Symbolwise(table, language, w[i..])
    decreases |w| - i
  {
    if i < |w| {
      NoDiphthongs(table, language, w, i + 1);
      assert w[i..][1..] == w[i + 1..];
    }
  }

  /** A listed diphthong is one symbol: its own viseme, not those of its
      two characters. */
  lemma DiphthongIsOneSymbol(table: VisemeTable, language: string, a: char, b: char)
    requires a != ' ' && a != '\'' && [a, b] in table.diphthongs
    ensures ScanFrom(table, language, [a, b], 0) == Lookup(table, language, [a, b])
  {
    var w := [a, b];
    assert w[0..2] == [a, b];
    var v := Lookup(table, language, [a, b]);
    if v.Success? {
      assert v.value + "" == v.value;
    }
  }

  /** Spaces and apostrophes are copied whatever the language. */
  lemma {:induction false} ApostrophesCopied(table: VisemeTable, language: string, w: string, i: nat)
    requires i <= |w| && forall j :: i <= j < |w| ==> w[j] == ' ' || w[j] == '\''
    ensures ScanFrom(table, language, w, i) == Success(w[i..])
    decreases |w| - i
  {
    if i < |w| {
      ApostrophesCopied(table, language, w, i + 1);
      assert w[i..] == [w[i]] + w[i + 1..];
    }
  }

  /** An unknown language is a KeyError as soon as one symbol must be looked up. */
  lemma {:induction false} UnknownLanguage(table: VisemeTable, language: string, w: string, i: nat, j: nat)
    requires language !in table.languages
    requires i <= j < |w| && w[j] != ' ' && w[j] != '\''
    ensures ScanFrom(table, language, w, i) == Failure("KeyError")
    decreases |w| - i
  {
    if w[i] == ' ' || w[i] == '\'' {
      UnknownLanguage(table, language, w, i + 1, j);
    }
  }

  /** The scan of a word without spaces holds no space when no viseme does. */
  lemma {:induction false} ScanSpaceFree(table: VisemeTable, language: string, w: string, i: nat)
    requires SpaceFree(table) && i <= |w| && ' ' !in w
    ensures var r := ScanFrom(table, language, w, i); r.Success? ==> ' ' !in r.value
    decreases |w| - i
  {
    if i < |w| {
      if w[i] == '\'' {
        ScanSpaceFree(table, language, w, i + 1);
      } else if i + 1 < |w| && w[i..i + 2] in table.diphthongs {
        ScanSpaceFree(table, language, w, i + 2);
      } else {
        ScanSpaceFree(table, language, w, i + 1);
      }
    }
  }

  /** Capitalising does not make a space. */
  lemma UpperSpaceFree(s: string)
    requires ' ' !in s
    ensures ' ' !in Upper(s)
  {
    forall i | 0 <= i < |s|
      ensures Upper(s)[i] != ' '
    {
      assert s[i] in s;
    }
  }

  lemma UnresolvedSpaceFree(w: string)
    requires ' ' !in w
    ensures ' ' !in Unresolved(w)
  {
    var a := Replace(w, "*", "");
    ReplaceCharRemoves(w, '*');
    UpperSpaceFree(a);
    if '$' in w {
      ReplaceCharRemoves(a, '$');
      UpperSpaceFree(Replace(a, "$", ""));
    }
  }

  /** How an untranscribable word is shown: `qzxw*` as `QZXW`, and an
      untranscribable possessive `qzxw$*` as `QZXWz`. */
  lemma UnresolvedForm(t: string)
    requires '*' !in t && '$' !in t
    ensures Unresolved(t + "*") == Upper(t)
    ensures Unresolved(t + "$*") == Upper(t) + "z"
  {
    ReplaceCharAppend(t, "*", '*');
    ReplaceCharAbsent(t, '*');
    assert Replace("*", "*", "") == "";
    assert t + "" == t;
    assert '$' !in t + "*";
    var u := t + "$";
    assert t + "$*" == u + "*";
    assert Replace(u + "*", "*", "") == u by {
      ReplaceCharAppend(u, "*", '*');
      ReplaceCharAppend(t, "$", '*');
      ReplaceCharAbsent("$", '*');
      assert u + "" == u;
    }
    assert '$' in t + "$*" by {
      assert (t + "$*")[|t|] == '$';
    }
    assert Replace(u, "$", "") == t by {
      ReplaceCharAppend(t, "$", '$');
      ReplaceCharAbsent(t, '$');
      assert Replace("$", "$", "") == "";
    }
  }

  /** `get_viseme` keeps one word per word of the transcription: an
      untranscribable word becomes its capitalised form and any other word
      its visemes, and the words can be read back by splitting on spaces
      when no viseme holds a space. */
  lemma VisemeWordsKept(table: VisemeTable, language: string, phonemeMap: string)
    requires SpaceFree(table)
    requires VisemeOf(table, language, phonemeMap).Success?
    ensures var ws := Split(phonemeMap, ' ');
      var vs := Split(VisemeOf(table, language, phonemeMap).value, ' ');
      |vs| == |ws| &&
      forall i :: 0 <= i < |ws| ==>
        Success(vs[i]) == VisemeWord(table, language, ws[i]) &&
        ('*' in ws[i] ==> vs[i] == Unresolved(ws[i]))
  {
    var ws := Split(phonemeMap, ' ');
    var out := VisemeWords(table, language, ws).value;
    WordsAreForms(table, language, ws);
    forall i | 0 <= i < |out|
      ensures ' ' !in out[i]
    {
      if '*' in ws[i] {
        UnresolvedSpaceFree(ws[i]);
      } else {
        ScanSpaceFree(table, language, ws[i], 0);
      }
    }
    SplitJoin(out, ' ');
  }

  /** Each word's form is the form of the word in the same place. */
  lemma {:induction false} WordsAreForms(table: VisemeTable, language: string, ws: seq<string>)
    requires VisemeWords(table, language, ws).Success?
    ensures var out := VisemeWords(table, language, ws).value;
      forall i :: 0 <= i < |ws| ==> VisemeWord(table, language, ws[i]) == Success(out[i])
    decreases |ws|
  {
    if ws != [] {
      var init := ws[..|ws| - 1];
      WordsAreForms(table, language, init);
      var out := VisemeWords(table, language, ws).value;
      var head := VisemeWords(table, language, init).value;
      var last := VisemeWord(table, language, ws[|ws| - 1]);
      assert out == head + [last.value] && last.Success?;
      forall i | 0 <= i < |ws| - 1
        ensures VisemeWord(table, language, ws[i]) == Success(out[i])
      {
        assert ws[i] == init[i] && out[i] == head[i];
      }
    }
  }
}
