/** `get_top` and `get_all`: from one candidate list per word to one
    transcription of the whole text, or to all of them. */
module Selection {
  import opened Text
  import opened Wrappers
  import opened Ordering
  import opened Radix

  // ---------------------------------------------------------------------
  // get_top
  // ---------------------------------------------------------------------

  predicate NoneEmpty(lists: seq<seq<string>>) {
    forall i :: 0 <= i < |lists| ==> lists[i] != []
  }

  /** `word_list[-1]` for every word. */
  function Lasts(lists: seq<seq<string>>): (r: seq<string>)
    requires NoneEmpty(lists)
    ensures |r| == |lists|
  {
    seq(|lists|, i requires 0 <= i < |lists| => lists[i][|lists[i]| - 1])
  }

  /** `get_top(ipa_list)`: the last candidate of every word, joined by
      spaces; an empty candidate list is an IndexError. */
  function GetTop(lists: seq<seq<string>>): (r: Result<string>)
    ensures r.Failure? <==> exists i :: 0 <= i < |lists| && lists[i] == []
    ensures r.Failure? ==> r == Failure("IndexError")
  {
    if NoneEmpty(lists) then Success(Join(" ", Lasts(lists))) else Failure("IndexError")
  }

  /** On the strictly ascending lists `cmu_to_ipa` produces, `get_top`
      takes the greatest candidate of every word, and the words can be
      read back by splitting on spaces. */
  lemma TopIsGreatest(lists: seq<seq<string>>)
    requires lists != [] && NoneEmpty(lists)
    requires forall i :: 0 <= i < |lists| ==> StrictlySorted(lists[i])
    requires forall i, j :: 0 <= i < |lists| && 0 <= j < |lists[i]| ==> ' ' !in lists[i][j]
    ensures GetTop(lists).Success?
    ensures var words := Split(GetTop(lists).value, ' ');
      |words| == |lists| &&
      forall i :: 0 <= i < |lists| ==>
        words[i] in lists[i] && forall x :: x in lists[i] ==> LessEq(x, words[i])
  {
    var lasts := Lasts(lists);
    TopWords(lists);
    forall i | 0 <= i < |lists|
      ensures lasts[i] in lists[i] && forall x :: x in lists[i] ==> LessEq(x, lasts[i])
    {
      LastIsGreatest(lists[i]);
    }
  }

  /** `get_top` keeps one word per list: when no candidate holds a space,
      splitting the transcription on spaces gives back the last candidate
      of every list, in order. */
  lemma TopWords(lists: seq<seq<string>>)
    requires lists != [] && NoneEmpty(lists)
    requires forall i, j :: 0 <= i < |lists| && 0 <= j < |lists[i]| ==> ' ' !in lists[i][j]
    ensures GetTop(lists).Success?
    ensures Split(GetTop(lists).value, ' ') == Lasts(lists)
  {
    SplitJoin(Lasts(lists), ' ');
  }

  // ---------------------------------------------------------------------
  // get_all
  // ---------------------------------------------------------------------

  /** `sent[:-1]`. */
  function DropLast(s: string): string {
    if s == [] then s else s[..|s| - 1]
  }

  /** The candidate row `x` takes for word `i`. */
  function Pick(lists: seq<seq<string>>, i: nat, x: nat): string
    requires i < |lists|
  {
    if lists[i] == [] then "" else lists[i][Digit(lists, i, x)]
  }

  /** Row `x` after the first `k` words: each pick followed by a space. */
  function Spaced(lists: seq<seq<string>>, k: nat, x: nat): string
    requires k <= |lists|
  {
    if k == 0 then "" else Spaced(lists, k - 1, x) + Pick(lists, k - 1, x) + " "
  }

  function Picks(lists: seq<seq<string>>, x: nat): (r: seq<string>)
    ensures |r| == |lists|
  {
    seq(|lists|, i requires 0 <= i < |lists| => Pick(lists, i, x))
  }

  /** Row `x` of the table of all transcriptions. */
  function Row(lists: seq<seq<string>>, x: nat): string {
    Join(" ", Picks(lists, x))
  }

  /** Rows 1 to N in the order `get_all` builds them (row N is row 0 again). */
  function Rows(lists: seq<seq<string>>): seq<string> {
    seq(Prod(lists), j requires 0 <= j < Prod(lists) => Row(lists, j + 1))
  }

  /** What `get_all` returns: its rows, sorted. */
  function AllRows(lists: seq<seq<string>>): seq<string> {
    Sort(Rows(lists))
  }

  lemma {:induction false} SpacedIsJoin(lists: seq<seq<string>>, k: nat, x: nat)
    requires 0 < k <= |lists|
    ensures Spaced(lists, k, x) == Join(" ", Picks(lists, x)[..k]) + " "
    decreases k
  {
    var picks := Picks(lists, x);
    if k == 1 {
      assert picks[..1] == [Pick(lists, 0, x)];
    } else {
      SpacedIsJoin(lists, k - 1, x);
      assert picks[..k] == picks[..k - 1] + [Pick(lists, k - 1, x)];
      JoinSnoc(" ", picks[..k - 1], Pick(lists, k - 1, x));
    }
  }

  /** Dropping the trailing space of a built row gives the row. */
  lemma DropLastSpaced(lists: seq<seq<string>>, x: nat)
    ensures DropLast(Spaced(lists, |lists|, x)) == Row(lists, x)
  {
    if |lists| > 0 {
      SpacedIsJoin(lists, |lists|, x);
      assert Picks(lists, x)[..|lists|] == Picks(lists, x);
    }
  }

  /** The switch rate of word 0: `final_size / len(ipa_list[0])`. */
  lemma FirstRate(lists: seq<seq<string>>)
    requires lists != [] && lists[0] != []
    ensures Prod(lists) / |lists[0]| == Prod(lists[1..])
  {
    HeadDigit(Prod(lists[1..]), |lists[0]|, 0);
  }

  /** The switch rate of word i: the previous rate divided by `len(ipa_list[i])`. */
  lemma NextRate(lists: seq<seq<string>>, i: nat)
    requires i < |lists| && lists[i] != []
    ensures Prod(lists[i..]) / |lists[i]| == Prod(lists[i + 1..])
  {
    assert lists[i..][1..] == lists[i + 1..];
    HeadDigit(Prod(lists[i + 1..]), |lists[i]|, 0);
  }

  /** The counter `k` of `get_all` after `j + 1` steps. */
  lemma CounterStep(j: nat, r: nat, n: nat, k: nat)
    requires r > 0 && n > 0 && k == (j / r) % n
    ensures var k1 := if (j + 1) % r == 0 then k + 1 else k;
      (if k1 == n then 0 else k1) == ((j + 1) / r) % n
  {
    DivStep(j, r);
    ModStep(j / r, n);
  }

  lemma RestNonEmpty(lists: seq<seq<string>>, i: nat)
    requires i < |lists| && Prod(lists) > 0
    ensures Prod(lists[i + 1..]) > 0 && lists[i] != []
  {
    ProdPositive(lists);
    ProdPositive(lists[i + 1..]);
    var rest := lists[i + 1..];
    assert forall m :: 0 <= m < |rest| ==> rest[m] == lists[i + 1 + m];
  }

  /** A built row, with its trailing space dropped, is the row. */
  lemma DroppedRow(lists: seq<seq<string>>, built: seq<string>, j: nat)
    requires j < |built| && built[j] == Spaced(lists, |lists|, j + 1)
    ensures DropLast(built[j]) == Row(lists, j + 1)
  {
    DropLastSpaced(lists, j + 1);
  }

  lemma RowsAre(lists: seq<seq<string>>, dropped: seq<string>)
    requires |dropped| == Prod(lists)
    requires forall j :: 0 <= j < |dropped| ==> dropped[j] == Row(lists, j + 1)
    ensures dropped == Rows(lists)
  {
  }

  /** The finished rows, with their trailing spaces dropped. */
  lemma RowsOfBuilt(lists: seq<seq<string>>, built: seq<string>)
    requires |built| == Prod(lists)
    requires forall j :: 0 <= j < |built| ==> built[j] == Spaced(lists, |lists|, j + 1)
    ensures seq(|built|, j requires 0 <= j < |built| => DropLast(built[j])) ==
            Rows(lists)
  {
    var dropped := seq(|built|, j requires 0 <= j < |built| => DropLast(built[j]));
    forall j | 0 <= j < |built|
      ensures dropped[j] == Row(lists, j + 1)
    {
      DroppedRow(lists, built, j);
    }
    RowsAre(lists, dropped);
  }

  /** The first loop of `get_all`: `final_size`, the product of the lengths. */
  method FinalSize(lists: seq<seq<string>>) returns (finalSize: nat)
    ensures finalSize == Prod(lists)
  {
    finalSize := 1;
    for i := 0 to |lists|
      invariant finalSize == Prod(lists[..i])
    {
      ProdSnoc(lists, i);
      finalSize := finalSize * |lists[i]|;
    }
    assert lists[..|lists|] == lists;
  }

  /** The inner loop of `get_all` for word `i`: every row gets its pick for
      word `i` and a space. */
  method AppendColumn(lists: seq<seq<string>>, i: nat, switchRate: nat, listAll: array<string>)
    requires i < |lists| && lists[i] != []
    requires listAll.Length == Prod(lists) && switchRate == Rate(lists, i)
    requires forall j :: 0 <= j < listAll.Length ==> listAll[j] == Spaced(lists, i, j + 1)
    modifies listAll
    ensures forall j :: 0 <= j < listAll.Length ==> listAll[j] == Spaced(lists, i + 1, j + 1)
  {
    var finalSize := listAll.Length;
    if finalSize > 0 {
      RestNonEmpty(lists, i);
    }
    var k := 0;
    for j := 0 to finalSize
      invariant finalSize > 0 ==> k == (j / switchRate) % |lists[i]|
      invariant forall m :: 0 <= m < j ==> listAll[m] == Spaced(lists, i + 1, m + 1)
      invariant forall m :: j <= m < finalSize ==> listAll[m] == Spaced(lists, i, m + 1)
    {
      CounterStep(j, switchRate, |lists[i]|, k);
      if (j + 1) % switchRate == 0 {
        k := k + 1;
      }
      if k == |lists[i]| {
        k := 0;
      }
      ColumnStep(lists, i, j + 1, k, listAll[j]);
      ghost var next := Spaced(lists, i + 1, j + 1);
      listAll[j] := listAll[j] + lists[i][k] + " ";
      assert listAll[j] == next;
    }
  }

  /** Appending the pick of word `i` to row `x` after the first `i` words
      gives row `x` after the first `i + 1` words. */
  lemma ColumnStep(lists: seq<seq<string>>, i: nat, x: nat, k: nat, cell: string)
    requires i < |lists| && lists[i] != [] && Rate(lists, i) > 0
    requires k == (x / Rate(lists, i)) % |lists[i]|
    requires cell == Spaced(lists, i, x)
    ensures cell + lists[i][k] + " " == Spaced(lists, i + 1, x)
  {
  }

  /** `get_all(ipa_list)`: every combination of one candidate per word.
      `final_size` is the product of the list lengths; word `i` switches to
      its next candidate every `switch_rate` rows, where `switch_rate` is
      the product of the lengths of the later lists. A word without
      candidates makes a division by zero. */
  method GetAll(lists: seq<seq<string>>) returns (r: Result<seq<string>>)
    ensures r.Failure? <==> exists i :: 0 <= i < |lists| && lists[i] == []
    ensures r.Failure? ==> r == Failure("ZeroDivisionError")
    ensures r.Success? ==> r.value == AllRows(lists)
  {
    var finalSize := FinalSize(lists);
    var listAll := new string[finalSize](_ => "");
    var switchRate: nat := 0;
    for i := 0 to |lists|
      invariant forall m :: 0 <= m < i ==> lists[m] != []
      invariant 0 < i ==> switchRate == Prod(lists[i..])
      invariant forall j :: 0 <= j < finalSize ==> listAll[j] == Spaced(lists, i, j + 1)
    {
      if |lists[i]| == 0 {
        return Failure("ZeroDivisionError");
      }
      if i == 0 {
        FirstRate(lists);
        switchRate := finalSize / |lists[i]|;
      } else {
        NextRate(lists, i);
        switchRate := switchRate / |lists[i]|;
      }
      AppendColumn(lists, i, switchRate, listAll);
    }
    var built := listAll[..];
    var sents := seq(|built|, j requires 0 <= j < |built| => DropLast(built[j]));
    RowsOfBuilt(lists, built);
    r := Success(Sort(sents));
  }

  // ---------------------------------------------------------------------
  // What get_all lists: every combination, once each
  // ---------------------------------------------------------------------

  /** The words of a choice of one candidate per word. */
  function Choose(lists: seq<seq<string>>, c: seq<nat>): (r: seq<string>)
    requires Valid(lists, c)
    ensures |r| == |lists|
  {
    seq(|lists|, i requires 0 <= i < |lists| => lists[i][c[i]])
  }

  /** Row N is row 0 again: every word has gone round its candidates a
      whole number of times. */
  lemma RowWraps(lists: seq<seq<string>>)
    requires NoneEmpty(lists)
    ensures Row(lists, Prod(lists)) == Row(lists, 0)
  {
    var total := Prod(lists);
    ProdPositive(lists);
    forall i | 0 <= i < |lists|
      ensures Pick(lists, i, total) == Pick(lists, i, 0)
    {
      RestNonEmpty(lists, i);
      var a, n, r := Prod(lists[..i]), |lists[i]|, Prod(lists[i + 1..]);
      ProdSplit(lists, i);
      assert lists[i..][1..] == lists[i + 1..];
      assert Prod(lists[i..]) == n * r;
      MulAssoc(a, n, r);
      MulPositive(a, n * r);
      NestedDigit(total, a, n, r, total);
      assert total % total == 0;
    }
    assert Picks(lists, total) == Picks(lists, 0);
  }

  /** Row `x`, for `x` below the number of rows, picks the candidates its
      digits name, and those digits are a valid choice. */
  lemma PicksAreChoice(lists: seq<seq<string>>, x: nat)
    requires x < Prod(lists)
    ensures Valid(lists, Digits(lists, x))
    ensures Picks(lists, x) == Choose(lists, Digits(lists, x))
  {
    ProdPositive(lists);
    EncodeOfDigits(lists, x);
  }

  /** The rows of `get_all` are rows 1 to N, in some order. */
  lemma InAllRows(lists: seq<seq<string>>, s: string)
    ensures s in AllRows(lists) <==> s in Rows(lists)
    ensures Sorted(AllRows(lists)) && |AllRows(lists)| == Prod(lists)
  {
    assert s in AllRows(lists) <==> s in multiset(Rows(lists));
    assert |multiset(AllRows(lists))| == |multiset(Rows(lists))|;
  }

  /** Row `x`, for `x` below N, is one of rows 1 to N. */
  lemma ShiftedRow(lists: seq<seq<string>>, x: nat)
    requires x < Prod(lists)
    ensures var j := if x == 0 then Prod(lists) - 1 else x - 1;
      Row(lists, j + 1) == Row(lists, x)
  {
    if x == 0 {
      ProdPositive(lists);
      RowWraps(lists);
    }
  }

  /** Every combination of one candidate per word is a row of `get_all`. */
  lemma AllRowsComplete(lists: seq<seq<string>>, c: seq<nat>)
    requires Valid(lists, c)
    ensures Join(" ", Choose(lists, c)) in AllRows(lists)
  {
    var x := Encode(lists, c);
    EncodeBound(lists, c);
    DigitsOfEncode(lists, c);
    PicksAreChoice(lists, x);
    ShiftedRow(lists, x);
    var j := if x == 0 then Prod(lists) - 1 else x - 1;
    assert Rows(lists)[j] == Row(lists, j + 1);
    InAllRows(lists, Row(lists, j + 1));
  }

  /** Every row of `get_all` is a combination of one candidate per word. */
  lemma AllRowsSound(lists: seq<seq<string>>, s: string)
    requires s in AllRows(lists)
    ensures exists c :: Valid(lists, c) && s == Join(" ", Choose(lists, c))
  {
    InAllRows(lists, s);
    var j :| 0 <= j < Prod(lists) && s == Rows(lists)[j];
    var c := RowChoice(lists, j);
  }

  /** Row `j + 1` of `get_all`, for `j` below N, spells out a choice. */
  lemma RowChoice(lists: seq<seq<string>>, j: nat) returns (c: seq<nat>)
    requires j < Prod(lists)
    ensures Valid(lists, c) && Rows(lists)[j] == Join(" ", Choose(lists, c))
  {
    var x := if j + 1 == Prod(lists) then 0 else j + 1;
    ShiftedRow(lists, x);
    PicksAreChoice(lists, x);
    c := Digits(lists, x);
  }

  /** When the candidates of each word are pairwise distinct and hold no
      space, different row numbers below N give different rows. */
  lemma RowInjective(lists: seq<seq<string>>, x: nat, y: nat)
    requires x < Prod(lists) && y < Prod(lists)
    requires forall i, a, b :: 0 <= i < |lists| && 0 <= a < b < |lists[i]| ==> lists[i][a] != lists[i][b]
    requires forall i, j :: 0 <= i < |lists| && 0 <= j < |lists[i]| ==> ' ' !in lists[i][j]
    ensures Row(lists, x) == Row(lists, y) ==> x == y
  {
    if lists == [] {
      assert Prod(lists) == 1;
    } else if Row(lists, x) == Row(lists, y) {
      PicksAreChoice(lists, x);
      PicksAreChoice(lists, y);
      var dx, dy := Digits(lists, x), Digits(lists, y);
      SplitJoin(Picks(lists, x), ' ');
      SplitJoin(Picks(lists, y), ' ');
      forall i | 0 <= i < |lists|
        ensures dx[i] == dy[i]
      {
        assert Picks(lists, x)[i] == Picks(lists, y)[i];
        assert lists[i][dx[i]] == lists[i][dy[i]];
      }
      assert dx == dy;
      EncodeOfDigits(lists, x);
      EncodeOfDigits(lists, y);
    }
  }

  /** `get_all` lists no combination twice: rows 1 to N are pairwise
      different when every word's candidates are distinct and hold no space. */
  lemma RowsDistinct(lists: seq<seq<string>>, j: nat, k: nat)
    requires j < k < Prod(lists)
    requires forall i, a, b :: 0 <= i < |lists| && 0 <= a < b < |lists[i]| ==> lists[i][a] != lists[i][b]
    requires forall i, m :: 0 <= i < |lists| && 0 <= m < |lists[i]| ==> ' ' !in lists[i][m]
    ensures Row(lists, j + 1) != Row(lists, k + 1)
  {
    if k + 1 == Prod(lists) {
      ProdPositive(lists);
      RowWraps(lists);
      RowInjective(lists, j + 1, 0);
    } else {
      RowInjective(lists, j + 1, k + 1);
    }
  }
}
