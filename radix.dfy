/** The mixed-radix numbering behind `get_all`: row `x` of the table of all
    transcriptions takes, for word `i`, candidate `(x / r) % n` where `n` is
    the number of candidates of word `i` and `r` the product of the numbers
    of candidates of the words after it. */
module Radix {

  // ---------------------------------------------------------------------
  // Euclidean division facts
  // ---------------------------------------------------------------------

  lemma DivAdd(a: nat, r: nat, b: nat)
    requires r > 0
    ensures (a * r + b) / r == a + b / r
    ensures (a * r + b) % r == b % r
  {
    var q, m := b / r, b % r;
    assert b == q * r + m;
    assert a * r + b == (a + q) * r + m;
    DivUnique(a * r + b, r, a + q, m);
  }

  /** Division is determined by a quotient and a remainder in range. */
  lemma DivUnique(x: int, r: int, q: int, m: int)
    requires r > 0 && 0 <= m < r && x == q * r + m
    ensures x / r == q && x % r == m
  {
    var q', m' := x / r, x % r;
    assert x == q' * r + m';
    assert (q - q') * r == m' - m;
    MulSmall(q - q', r);
  }

  lemma MulSmall(d: int, r: int)
    requires r > 0 && -r < d * r < r
    ensures d == 0
  {
  }

  /** Counting up by one: the quotient grows exactly when the remainder wraps. */
  lemma DivStep(j: nat, r: nat)
    requires r > 0
    ensures (j + 1) / r == j / r + (if (j + 1) % r == 0 then 1 else 0)
  {
    var q, m := j / r, j % r;
    assert j == q * r + m;
    if m + 1 == r {
      DivUnique(j + 1, r, q + 1, 0);
    } else {
      DivUnique(j + 1, r, q, m + 1);
    }
  }

  lemma ModStep(q: nat, n: nat)
    requires n > 0
    ensures (q + 1) % n == if q % n + 1 == n then 0 else q % n + 1
  {
    var d, m := q / n, q % n;
    assert q == d * n + m;
    if m + 1 == n {
      DivUnique(q + 1, n, d + 1, 0);
    } else {
      DivUnique(q + 1, n, d, m + 1);
    }
  }

  lemma MulNat(a: nat, b: nat)
    ensures a * b >= 0
  {
  }

  lemma DivMod(x: nat, p: nat)
    requires p > 0
    ensures x == (x / p) * p + x % p
    ensures x / p >= 0 && 0 <= x % p < p
  {
  }

  /** Taking a row number modulo a multiple of `n * r` keeps its digit
      `(x / r) % n`. */
  lemma NestedDigit(x: nat, a: nat, n: nat, r: nat, p: nat)
    requires a > 0 && n > 0 && r > 0 && p == (a * n) * r
    ensures ((x % p) / r) % n == (x / r) % n
  {
    var q, m := x / p, x % p;
    DivMod(x, p);
    var an := a * n;
    MulNat(a, n);
    MulAssoc(q, an, r);
    var qan := q * an;
    MulNat(q, an);
    assert x == qan * r + m;
    DivAdd(qan, r, m);
    MulAssoc(q, a, n);
    var qa := q * a;
    MulNat(q, a);
    assert qan == qa * n;
    DivAdd(qa, n, m / r);
  }

  /** A number with no more than `d` whole multiples of `r` besides `e < r`. */
  lemma HeadDigit(d: nat, r: nat, e: nat)
    requires e < r
    ensures (d * r + e) / r == d && (d * r + e) % r == e
  {
    DivUnique(d * r + e, r, d, e);
  }

  lemma ModSmall(q: nat, n: nat)
    requires q < n
    ensures q % n == q
  {
    DivUnique(q, n, 0, q);
  }

  lemma MulCancelLess(a: nat, b: nat, p: nat)
    requires a * p < b * p
    ensures a < b
  {
  }

  lemma DivBound(x: nat, p: nat, n: nat)
    requires p > 0 && x < n * p
    ensures x / p < n
  {
    DivMod(x, p);
    MulNat(x / p, p);
    MulCancelLess(x / p, n, p);
  }

  lemma MulPositive(a: nat, b: nat)
    requires a * b > 0
    ensures a > 0 && b > 0
  {
  }

  lemma MulAssoc(a: int, b: int, c: int)
    ensures a * (b * c) == (a * b) * c
  {
  }

  lemma MulMono(a: nat, b: nat, c: nat)
    requires a <= b
    ensures a * c <= b * c
  {
  }

  // ---------------------------------------------------------------------
  // Products of list lengths
  // ---------------------------------------------------------------------

  /** The number of rows: the product of the numbers of candidates. */
  function Prod(lists: seq<seq<string>>): nat {
    if lists == [] then 1 else |lists[0]| * Prod(lists[1..])
  }

  lemma {:induction false} ProdSplit(lists: seq<seq<string>>, k: nat)
    requires k <= |lists|
    ensures Prod(lists) == Prod(lists[..k]) * Prod(lists[k..])
    decreases k
  {
    if k > 0 {
      ProdSplit(lists[1..], k - 1);
      assert lists[1..][..k - 1] == lists[..k][1..];
      assert lists[1..][k - 1..] == lists[k..];
      calc {
        Prod(lists);
        |lists[0]| * Prod(lists[1..]);
        |lists[0]| * (Prod(lists[1..][..k - 1]) * Prod(lists[1..][k - 1..]));
        (|lists[0]| * Prod(lists[..k][1..])) * Prod(lists[k..]);
        Prod(lists[..k]) * Prod(lists[k..]);
      }
    } else {
      assert lists[..0] == [] && lists[0..] == lists;
    }
  }

  /** Appending a word multiplies the number of rows by its number of candidates. */
  lemma ProdSnoc(lists: seq<seq<string>>, i: nat)
    requires i < |lists|
    ensures Prod(lists[..i + 1]) == Prod(lists[..i]) * |lists[i]|
  {
    ProdSplit(lists[..i + 1], i);
    assert lists[..i + 1][..i] == lists[..i];
    assert lists[..i + 1][i..] == [lists[i]];
    assert Prod([lists[i]]) == |lists[i]| * Prod([]);
  }

  /** There are rows exactly when every word has a candidate. */
  lemma {:induction false} ProdPositive(lists: seq<seq<string>>)
    ensures Prod(lists) > 0 <==> forall i :: 0 <= i < |lists| ==> lists[i] != []
    decreases |lists|
  {
    if lists != [] {
      ProdPositive(lists[1..]);
      if Prod(lists) > 0 {
        MulPositive(|lists[0]|, Prod(lists[1..]));
        forall i | 0 <= i < |lists|
          ensures lists[i] != []
        {
          if i > 0 {
            assert lists[i] == lists[1..][i - 1];
          }
        }
      } else {
        assert !(|lists[0]| > 0 && Prod(lists[1..]) > 0);
        if Prod(lists[1..]) == 0 {
          var j :| 0 <= j < |lists[1..]| && lists[1..][j] == [];
          assert lists[j + 1] == [];
        }
      }
    }
  }

  // ---------------------------------------------------------------------
  // Digits and their inverse
  // ---------------------------------------------------------------------

  /** The product of the candidate counts of the words after word `i`. */
  function Rate(lists: seq<seq<string>>, i: nat): nat
    requires i < |lists|
  {
    Prod(lists[i + 1..])
  }

  /** The candidate row `x` takes for word `i` (0 where a count is 0). */
  function Digit(lists: seq<seq<string>>, i: nat, x: nat): nat
    requires i < |lists|
  {
    var r, n := Rate(lists, i), |lists[i]|;
    if r == 0 || n == 0 then 0 else (x / r) % n
  }

  /** A choice of one candidate per word. */
  predicate Valid(lists: seq<seq<string>>, c: seq<nat>) {
    |c| == |lists| && forall i :: 0 <= i < |c| ==> c[i] < |lists[i]|
  }

  /** The row number of a choice: its digits read most significant first. */
  function Encode(lists: seq<seq<string>>, c: seq<nat>): nat
    requires |c| == |lists|
  {
    if lists == [] then 0 else c[0] * Prod(lists[1..]) + Encode(lists[1..], c[1..])
  }

  function Digits(lists: seq<seq<string>>, x: nat): (c: seq<nat>)
    ensures |c| == |lists|
  {
    seq(|lists|, i requires 0 <= i < |lists| => Digit(lists, i, x))
  }

  lemma {:induction false} EncodeBound(lists: seq<seq<string>>, c: seq<nat>)
    requires Valid(lists, c)
    ensures Encode(lists, c) < Prod(lists)
    decreases |lists|
  {
    if lists != [] {
      var rest := lists[1..];
      assert Valid(rest, c[1..]) by {
        forall i | 0 <= i < |c[1..]|
          ensures c[1..][i] < |rest[i]|
        {
          assert c[1..][i] == c[i + 1] && rest[i] == lists[i + 1];
        }
      }
      EncodeBound(rest, c[1..]);
      MulMono(c[0] + 1, |lists[0]|, Prod(rest));
      assert Encode(lists, c) < (c[0] + 1) * Prod(rest);
    }
  }

  /** The digits of the last words are those of the row number taken
      modulo the product of their counts. */
  lemma DigitOfRest(lists: seq<seq<string>>, i: nat, x: nat)
    requires 0 < i < |lists| && Prod(lists[1..]) > 0
    ensures Digit(lists, i, x) == Digit(lists[1..], i - 1, x % Prod(lists[1..]))
  {
    var rest := lists[1..];
    var p := Prod(rest);
    var r := Rate(lists, i);
    assert lists[i + 1..] == rest[i..];
    ProdSplit(rest, i);
    var k := Prod(rest[..i]);
    assert p == k * r;
    MulPositive(k, r);
    assert rest[..i] == rest[..i - 1] + [rest[i - 1]];
    ProdSnoc(rest, i - 1);
    var n := |lists[i]|;
    assert rest[i - 1] == lists[i];
    assert k == Prod(rest[..i - 1]) * n;
    MulPositive(Prod(rest[..i - 1]), n);
    NestedDigit(x, Prod(rest[..i - 1]), n, r, p);
  }

  /** Row `Encode(c)` takes candidate `c[i]` for every word `i`. */
  lemma {:induction false} DigitsOfEncode(lists: seq<seq<string>>, c: seq<nat>)
    requires Valid(lists, c)
    ensures Digits(lists, Encode(lists, c)) == c
    decreases |lists|
  {
    if lists != [] {
      var rest := lists[1..];
      var p := Prod(rest);
      assert Valid(rest, c[1..]) by {
        forall i | 0 <= i < |c[1..]|
          ensures c[1..][i] < |rest[i]|
        {
          assert c[1..][i] == c[i + 1] && rest[i] == lists[i + 1];
        }
      }
      DigitsOfEncode(rest, c[1..]);
      EncodeBound(rest, c[1..]);
      var e := Encode(rest, c[1..]);
      var x := Encode(lists, c);
      assert x == c[0] * p + e;
      HeadDigit(c[0], p, e);
      forall i | 0 <= i < |lists|
        ensures Digit(lists, i, x) == c[i]
      {
        if i == 0 {
          assert lists[1..] == rest;
          ModSmall(c[0], |lists[0]|);
        } else {
          DigitOfRest(lists, i, x);
          assert Digits(rest, e)[i - 1] == c[1..][i - 1];
        }
      }
    }
  }

  /** Every row number below the number of rows is the code of its digits. */
  lemma {:induction false} EncodeOfDigits(lists: seq<seq<string>>, x: nat)
    requires x < Prod(lists)
    ensures Valid(lists, Digits(lists, x))
    ensures Encode(lists, Digits(lists, x)) == x
    decreases |lists|
  {
    if lists != [] {
      var rest := lists[1..];
      var p := Prod(rest);
      var n := |lists[0]|;
      MulPositive(n, p);
      ProdPositive(lists);
      var q, m := x / p, x % p;
      DivMod(x, p);
      assert Prod(lists) == n * p;
      DivBound(x, p, n);
      assert q < n;
      EncodeOfDigits(rest, m);
      var d := Digits(lists, x);
      assert lists[0 + 1..] == rest;
      ModSmall(q, n);
      assert d[0] == q;
      forall i | 0 < i < |lists|
        ensures d[i] == Digits(rest, m)[i - 1]
      {
        DigitOfRest(lists, i, x);
      }
      assert d[1..] == Digits(rest, m);
      forall i | 0 <= i < |lists|
        ensures d[i] < |lists[i]|
      {
        if i > 0 {
          assert d[i] == Digits(rest, m)[i - 1];
        }
      }
    }
  }
}
