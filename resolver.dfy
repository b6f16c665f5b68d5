/** `fetch_words` and `get_cmu`: looking tokens up in the CMU pronouncing
    dictionary, with the fallback for possessives and unknown words. The
    SQLite table is a sequence of rows; the `SELECT ... WHERE word IN (...)`
    query is a filter over those rows. */
module Resolver {
  import opened Text

  /** One row of the `dictionary` table: a word and one of its
      pronunciations, a space-separated list of ARPAbet phonemes. */
  datatype Row = Row(word: string, phonemes: string)

  /** The prefix `get_cmu` puts on a token it could not transcribe. */
  const IgnoreMarker: string := "__IGNORE__"

  /** The pronunciations of `w`, in table order. */
  function RowsFor(table: seq<Row>, w: string): seq<string>
  {
    if table == [] then []
    else
      var last := table[|table| - 1];
      RowsFor(table[..|table| - 1], w) + (if last.word == w then [last.phonemes] else [])
  }

  /** A pronunciation is listed for `w` exactly when the table has that row. */
  lemma {:induction false} RowsForMembers(table: seq<Row>, w: string, p: string)
    ensures p in RowsFor(table, w) <==> Row(w, p) in table
  {
    if table != [] {
      var init := table[..|table| - 1];
      RowsForMembers(init, w, p);
      assert table == init + [table[|table| - 1]];
    }
  }

  /** `fetch_words(words_in)`: the rows whose word is one of `words`,
      grouped by word (the `defaultdict(list)` of the source). */
  method FetchWords(table: seq<Row>, words: seq<string>) returns (d: map<string, seq<string>>)
    ensures forall w :: w in d <==> w in words && RowsFor(table, w) != []
    ensures forall w :: w in d ==> d[w] == RowsFor(table, w)
  {
    d := map[];
    for k := 0 to |table|
      invariant forall w :: w in d <==> w in words && RowsFor(table[..k], w) != []
      invariant forall w :: w in d ==> d[w] == RowsFor(table[..k], w)
    {
      assert table[..k + 1][..k] == table[..k];
      var row := table[k];
      if row.word in words {
        var sofar := if row.word in d then d[row.word] else [];
        d := d[row.word := sofar + [row.phonemes]];
      }
    }
    assert table[..|table|] == table;
  }

  /** The candidate list `get_cmu` produces for one token: its rows when it
      has any; otherwise, for a token with an apostrophe, the candidates of
      the part before the first apostrophe, with " z" added to the first
      candidate (or "$" to an unknown word) when the part after it is "s";
      otherwise the token marked as untranscribable. */
  function Resolve(table: seq<Row>, word: string): seq<string>
    decreases if '\'' in word then 1 else 0
  {
    var found := RowsFor(table, word);
    if found != [] then found
    else
      var l := Split(word, '\'');
      if |l| > 1 then Attach(Resolve(table, l[0]), word, l[1])
      else [IgnoreMarker + word]
  }

  /** What `get_cmu` makes of an unlisted `word` with an apostrophe from the
      candidates `base` of the part before it and the part `second` after it. */
  function Attach(base: seq<string>, word: string, second: string): seq<string>
  {
    if base == [] then
      // `to_order[0][0]` raises IndexError, which the bare `except` catches
      [IgnoreMarker + word]
    else if StartsWith(base[0], IgnoreMarker) then
      [base[0] + (if second == "s" then "$" else "")]
    else
      [base[0] + (if second == "s" then " z" else "")] + base[1..]
  }

  /** Resolving an unlisted `base + "'" + rest` goes through `base`, the
      part before the first apostrophe; only the part of `rest` before its
      own next apostrophe, if any, decides the suffix. */
  lemma ResolveApostrophe(table: seq<Row>, base: string, rest: string)
    requires '\'' !in base
    requires RowsFor(table, base + "'" + rest) == []
    ensures Resolve(table, base + "'" + rest) ==
      Attach(Resolve(table, base), base + "'" + rest, Split(rest, '\'')[0])
  {
    SplitApostrophe(base, rest);
  }

  /** `get_cmu(tokens_in)`: one candidate list per token, in token order. */
  method GetCmu(table: seq<Row>, tokens: seq<string>) returns (ordered: seq<seq<string>>)
    ensures |ordered| == |tokens|
    ensures forall i :: 0 <= i < |tokens| ==> ordered[i] == Resolve(table, tokens[i])
    decreases if exists w :: w in tokens && '\'' in w then 1 else 0
  {
    var result := FetchWords(table, tokens);
    ordered := [];
    for k := 0 to |tokens|
      invariant |ordered| == k
      invariant forall i :: 0 <= i < k ==> ordered[i] == Resolve(table, tokens[i])
    {
      var word := tokens[k];
      var thisWord := if word in result then [result[word]] else [];
      if thisWord != [] {
        ordered := ordered + [thisWord[0]];
      } else {
        var l := Split(word, '\'');
        if |l| > 1 {
          assert word in tokens && '\'' in word;
          var toOrder := GetCmu(table, [l[0]]);
          if toOrder[0] == [] {
            ordered := ordered + [[IgnoreMarker + word]];
          } else if StartsWith(toOrder[0][0], IgnoreMarker) {
            ordered := ordered + [[toOrder[0][0] + (if l[1] == "s" then "$" else "")]];
          } else {
            var first := toOrder[0][0] + (if l[1] == "s" then " z" else "");
            ordered := ordered + [[first] + toOrder[0][1..]];
          }
        } else {
          ordered := ordered + [[IgnoreMarker + word]];
        }
      }
    }
  }

  /** Every token gets at least one candidate, so the `except` path that
      guards `to_order[0][0]` is never taken. */
  lemma ResolveNonEmpty(table: seq<Row>, word: string)
    ensures Resolve(table, word) != []
    decreases if '\'' in word then 1 else 0
  {
    if RowsFor(table, word) == [] {
      var l := Split(word, '\'');
      if |l| > 1 {
        ResolveNonEmpty(table, l[0]);
      }
    }
  }

  /** Splitting `base + "'" + rest` on the apostrophe when `base` has none. */
  lemma SplitApostrophe(base: string, rest: string)
    requires '\'' !in base
    ensures Split(base + "'" + rest, '\'') == [base] + Split(rest, '\'')
  {
    var w := base + "'" + rest;
    assert w[|base|] == '\'';
    assert w[..|base|] == base;
    IndexOfIs(w, '\'', |base|);
    assert w[|base| + 1..] == rest;
  }

  /** An unlisted possessive of a listed word: " z" is appended to the word's
      first pronunciation and the others are kept. */
  lemma PossessiveOfKnown(table: seq<Row>, base: string)
    requires '\'' !in base
    requires RowsFor(table, base + "'s") == [] && RowsFor(table, base) != []
    requires !StartsWith(RowsFor(table, base)[0], IgnoreMarker)
    ensures var c := RowsFor(table, base);
      Resolve(table, base + "'s") == [c[0] + " z"] + c[1..]
  {
    assert base + "'s" == base + "'" + "s";
    ResolveApostrophe(table, base, "s");
    assert Split("s", '\'') == ["s"];
  }

  /** A trailing apostrophe (`cats'`) adds nothing: the second piece is
      empty, not "s", so the word's own pronunciations are returned. */
  lemma TrailingApostrophe(table: seq<Row>, base: string)
    requires '\'' !in base
    requires RowsFor(table, base + "'") == [] && RowsFor(table, base) != []
    requires !StartsWith(RowsFor(table, base)[0], IgnoreMarker)
    ensures Resolve(table, base + "'") == RowsFor(table, base)
  {
    assert base + "'" == base + "'" + "";
    ResolveApostrophe(table, base, "");
    assert Split("", '\'') == [""];
    var c := RowsFor(table, base);
    assert c[0] + "" == c[0];
    assert [c[0]] + c[1..] == c;
  }

  /** An unlisted possessive of an unlisted word: one marked candidate, the
      base word followed by "$". */
  lemma PossessiveOfUnknown(table: seq<Row>, base: string)
    requires '\'' !in base
    requires RowsFor(table, base + "'s") == [] && RowsFor(table, base) == []
    ensures Resolve(table, base + "'s") == [IgnoreMarker + base + "$"]
  {
    assert base + "'s" == base + "'" + "s";
    ResolveApostrophe(table, base, "s");
    assert Split("s", '\'') == ["s"];
    UnknownWord(table, base);
    assert StartsWith(IgnoreMarker + base, IgnoreMarker) by {
      assert (IgnoreMarker + base)[..|IgnoreMarker|] == IgnoreMarker;
    }
  }

  /** An unlisted word without an apostrophe: one marked candidate. */
  lemma UnknownWord(table: seq<Row>, word: string)
    requires '\'' !in word && RowsFor(table, word) == []
    ensures Resolve(table, word) == [IgnoreMarker + word]
  {
  }

  /** A token is found exactly when the table has a row for it, and then its
      candidates are all of its pronunciations, in table order. */
  lemma ResolveListed(table: seq<Row>, word: string)
    ensures (exists p :: Row(word, p) in table) <==> RowsFor(table, word) != []
    ensures RowsFor(table, word) != [] ==> Resolve(table, word) == RowsFor(table, word)
  {
    if exists p :: Row(word, p) in table {
      var p :| Row(word, p) in table;
      RowsForMembers(table, word, p);
    }
    if RowsFor(table, word) != [] {
      var p := RowsFor(table, word)[0];
      RowsForMembers(table, word, p);
    }
  }

  /** A candidate that may carry the marker holds no space: either it has
      no underscore, so the marker cannot start it, or it starts with the
      marker and has no space. */
  predicate MarkerSafe(c: string) {
    '_' !in c || (StartsWith(c, IgnoreMarker) && ' ' !in c)
  }

  /** A table of ARPAbet pronunciations: none holds an underscore. */
  predicate PlainTable(table: seq<Row>) {
    forall r :: r in table ==> '_' !in r.phonemes
  }

  /** Over a plain table, every candidate of a token without a space is
      marker-safe: rows and possessives of rows have no underscore, and
      every marked candidate is built from the token's own text. */
  lemma ResolveMarkerSafe(table: seq<Row>, word: string)
    requires PlainTable(table) && ' ' !in word
    ensures forall c :: c in Resolve(table, word) ==> MarkerSafe(c)
    decreases if '\'' in word then 1 else 0
  {
    var found := RowsFor(table, word);
    if found != [] {
      forall c | c in found
        ensures '_' !in c
      {
        RowsForMembers(table, word, c);
      }
    } else {
      var l := Split(word, '\'');
      if |l| > 1 {
        SplitChars(word, '\'');
        assert forall d :: d in l[0] ==> d in word;
        ResolveMarkerSafe(table, l[0]);
        var base := Resolve(table, l[0]);
        ResolveNonEmpty(table, l[0]);
        var c := base[0];
        assert MarkerSafe(c);
        if StartsWith(c, IgnoreMarker) {
          var d := c + (if l[1] == "s" then "$" else "");
          assert d[..|IgnoreMarker|] == c[..|IgnoreMarker|];
          assert c[0] == '_';
        } else {
          assert forall x :: x in base[1..] ==> x in base;
        }
      } else {
        assert (IgnoreMarker + word)[..|IgnoreMarker|] == IgnoreMarker;
      }
    }
  }
}
