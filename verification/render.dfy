/**
 * The printed form of a monomial: "1" for the empty dictionary, otherwise one factor
 * `L(i,k)` or `L(i,k)^e` per stored key, in increasing order of (i, k), separated by
 * single spaces. The letter L is 'Y' for Y-monomials and 'A' for A-monomials.
 */
module Rendering {
  import opened Monomials

  /** Python's ordering of (i, k) tuples: by i, then by k. */
  predicate KeyBefore(a: Key, b: Key) {
    a.0 < b.0 || (a.0 == b.0 && a.1 < b.1)
  }

  predicate StrictlySorted(r: seq<Key>) {
    forall p, q | 0 <= p < q < |r| :: KeyBefore(r[p], r[q])
  }

  /** Every non-empty set of keys has a least element. */
  lemma {:induction false} LeastExists(s: set<Key>)
    requires s != {}
    ensures exists k | k in s :: forall x | x in s && x != k :: KeyBefore(k, x)
    decreases |s|
  {
    var y :| y in s;
    if s == {y} {
      assert forall x | x in s && x != y :: KeyBefore(y, x);
    } else {
      var rest := s - {y};
      LeastExists(rest);
      var k :| k in rest && forall x | x in rest && x != k :: KeyBefore(k, x);
      if KeyBefore(k, y) {
        assert forall x | x in s && x != k :: KeyBefore(k, x);
      } else {
        assert forall x | x in s && x != y :: KeyBefore(y, x) by {
          forall x | x in s && x != y ensures KeyBefore(y, x) {
            if x != k {
              assert KeyBefore(k, x);
            }
          }
        }
      }
    }
  }

  /** `sorted(d.items(), key=lambda x: (x[0][0], x[0][1]))`, keys only: each key once, in increasing order. */
  ghost function SortedKeys(s: set<Key>): (r: seq<Key>)
    ensures |r| == |s|
    ensures forall k :: k in r <==> k in s
    ensures StrictlySorted(r)
    decreases |s|
  {
    if s == {} then []
    else
      LeastExists(s);
      var k :| k in s && forall x | x in s && x != k :: KeyBefore(k, x);
      var rest := SortedKeys(s - {k});
      assert forall q | 0 <= q < |rest| :: rest[q] in s - {k};
      [k] + rest
  }

  /** A strictly sorted sequence is determined by its elements. */
  lemma {:induction false} SortedUnique(a: seq<Key>, b: seq<Key>)
    requires StrictlySorted(a) && StrictlySorted(b)
    requires forall k :: k in a <==> k in b
    ensures a == b
    decreases |a|
  {
    assert |a| > 0 ==> a[0] in a;
    assert |b| > 0 ==> b[0] in b;
    if |a| > 0 && |b| > 0 {
      assert a[0] in b && b[0] in a;
      assert a[0] == b[0] by {
        var p :| 0 <= p < |a| && a[p] == b[0];
        var q :| 0 <= q < |b| && b[q] == a[0];
        assert p > 0 ==> KeyBefore(a[0], b[0]);
        assert q > 0 ==> KeyBefore(b[0], a[0]);
      }
      forall k ensures k in a[1..] <==> k in b[1..] {
        if k in a[1..] {
          var p :| 1 <= p < |a| && a[p] == k;
          assert KeyBefore(a[0], k);
          assert k in b && k != b[0];
          var q :| 0 <= q < |b| && b[q] == k;
          assert b[1..][q - 1] == k;
        }
        if k in b[1..] {
          var q :| 1 <= q < |b| && b[q] == k;
          assert KeyBefore(b[0], k);
          assert k in a && k != a[0];
          var p :| 0 <= p < |a| && a[p] == k;
          assert a[1..][p - 1] == k;
        }
      }
      SortedUnique(a[1..], b[1..]);
      assert a == [a[0]] + a[1..] && b == [b[0]] + b[1..];
    }
  }

  /** The decimal digit of 0 <= v < 10. */
  function DigitChar(v: int): (c: char)
    requires 0 <= v < 10
    ensures '0' <= c <= '9' && c as int - '0' as int == v
  {
    "0123456789"[v]
  }

  /** Decimal digits of a natural number, most significant first, no leading zero. */
  function NatToString(n: nat): (s: string)
    ensures |s| > 0 && (|s| > 1 ==> s[0] != '0')
    ensures forall p | 0 <= p < |s| :: '0' <= s[p] <= '9'
  {
    if n < 10 then [DigitChar(n)] else NatToString(n / 10) + [DigitChar(n % 10)]
  }

  /** The value of a string of decimal digits. */
  function ParseNat(s: string): int {
    if |s| == 0 then 0 else 10 * ParseNat(s[..|s| - 1]) + (s[|s| - 1] as int - '0' as int)
  }

  /** Python's `"{}".format(e)` for an integer: a '-' sign for negatives, then the decimal digits. */
  function IntToString(n: int): (s: string)
    ensures |s| > 0
    ensures (s[0] == '-') <==> n < 0
    ensures forall p | 0 <= p < |s| :: s[p] == '-' || '0' <= s[p] <= '9'
  {
    if n < 0 then "-" + NatToString(-n) else NatToString(n)
  }

  /** Reading a signed decimal string back. */
  function ParseInt(s: string): int {
    if |s| > 0 && s[0] == '-' then -ParseNat(s[1..]) else ParseNat(s)
  }

  lemma {:induction false} NatRoundTrip(n: nat)
    ensures ParseNat(NatToString(n)) == n
  {
    if n >= 10 {
      NatRoundTrip(n / 10);
      var s := NatToString(n);
      assert s[..|s| - 1] == NatToString(n / 10);
    }
  }

  /** The printed exponent determines the exponent: parsing it back gives the integer. */
  lemma IntRoundTrip(n: int)
    ensures ParseInt(IntToString(n)) == n
  {
    if n < 0 {
      NatRoundTrip(-n);
      assert IntToString(n)[1..] == NatToString(-n);
    } else {
      NatRoundTrip(n);
    }
  }

  /** One factor `L(i,k)` followed by `^e` unless e is 1. */
  function FactorString(letter: char, t: Key, e: int): string {
    [letter] + "(" + IntToString(t.0) + "," + IntToString(t.1) + ")"
      + (if e != 1 then "^" + IntToString(e) else "")
  }

  /** A factor carries a '^' exactly when its exponent differs from 1, and then ends with the exponent. */
  lemma FactorExponent(letter: char, t: Key, e: int)
    requires letter != '^'
    ensures ('^' in FactorString(letter, t, e)) <==> e != 1
    ensures e != 1 ==> FactorString(letter, t, e)
                       == [letter] + "(" + IntToString(t.0) + "," + IntToString(t.1) + ")^" + IntToString(e)
  {
    var head := [letter] + "(" + IntToString(t.0) + "," + IntToString(t.1) + ")";
    var tail := if e != 1 then "^" + IntToString(e) else "";
    assert FactorString(letter, t, e) == head + tail;
    assert '^' !in head by {
      var a := IntToString(t.0);
      var b := IntToString(t.1);
      assert head == [letter] + "(" + a + "," + b + ")";
      forall p | 0 <= p < |head| ensures head[p] != '^' {
        if 2 <= p < 2 + |a| {
          assert head[p] == a[p - 2];
        } else if 3 + |a| <= p < 3 + |a| + |b| {
          assert head[p] == b[p - 3 - |a|];
        }
      }
    }
    if e != 1 {
      assert tail[0] == '^';
      assert (head + tail)[|head|] == '^';
    }
  }

  /** `' '.join(parts)`. */
  function Join(parts: seq<string>): string {
    if |parts| == 0 then ""
    else if |parts| == 1 then parts[0]
    else parts[0] + " " + Join(parts[1..])
  }

  /** The factors of m, one per stored key in sorted order. */
  ghost function Factors(m: Monomial, letter: char): (r: seq<string>)
    ensures |r| == |m|
  {
    var keys := SortedKeys(m.Keys);
    seq(|keys|, p requires 0 <= p < |keys| => FactorString(letter, keys[p], m[keys[p]]))
  }

  /** `_repr_`: "1" when nothing is stored, else the factors joined by spaces. */
  ghost function Render(m: Monomial, letter: char): (r: string)
    requires letter != '1'
    ensures (r == "1") <==> (m == map[])
  {
    if m == map[] then "1"
    else
      var parts := Factors(m, letter);
      assert |parts| > 0;
      assert parts[0][0] == letter;
      assert Join(parts)[0] == letter;
      Join(parts)
  }

  /** Rendering a monomial whose keys, sorted, are `order`. */
  lemma RenderInOrder(m: Monomial, letter: char, order: seq<Key>)
    requires letter != '1' && m != map[]
    requires StrictlySorted(order) && forall k :: k in order <==> k in m
    ensures forall p | 0 <= p < |order| :: order[p] in m
    ensures Render(m, letter) == Join(seq(|order|, p requires 0 <= p < |order| => FactorString(letter, order[p], m[order[p]])))
  {
    SortedUnique(SortedKeys(m.Keys), order);
  }

  /** Joining three factors. */
  lemma JoinThree(x: string, y: string, z: string)
    ensures Join([x, y, z]) == x + " " + y + " " + z
  {
    assert [x, y, z][1..] == [y, z];
    assert [y, z][1..] == [z];
    assert Join([y, z]) == y + " " + z;
    assert Join([x, y, z]) == x + " " + (y + " " + z);
  }

  /** Printing of the small integers the examples use. */
  lemma SmallInts()
    ensures IntToString(0) == "0" && IntToString(1) == "1" && IntToString(2) == "2"
    ensures IntToString(4) == "4" && IntToString(5) == "5"
    ensures IntToString(-1) == "-1" && IntToString(-2) == "-2"
    ensures IntToString(10) == "10"
  {
    assert NatToString(10) == NatToString(1) + [DigitChar(0)];
  }

  /** The three factors of the Y example. */
  lemma YFactors()
    ensures FactorString('Y', (0, 5), 10) == "Y(0,5)^10"
    ensures FactorString('Y', (1, 0), 1) == "Y(1,0)"
    ensures FactorString('Y', (2, 2), -2) == "Y(2,2)^-2"
  {
    SmallInts();
  }

  /** The three factors of the A example. */
  lemma AFactors()
    ensures FactorString('A', (1, 1), -1) == "A(1,1)^-1"
    ensures FactorString('A', (2, 0), -1) == "A(2,0)^-1"
    ensures FactorString('A', (4, 0), -1) == "A(4,0)^-1"
  {
    SmallInts();
  }

  /** The printed examples joined by spaces. */
  lemma JoinedExamples()
    ensures "Y(0,5)^10" + " " + "Y(1,0)" + " " + "Y(2,2)^-2" == "Y(0,5)^10 Y(1,0) Y(2,2)^-2"
    ensures "A(1,1)^-1" + " " + "A(2,0)^-1" + " " + "A(4,0)^-1" == "A(1,1)^-1 A(2,0)^-1 A(4,0)^-1"
  {
  }

  /** A monomial with three stored keys k0 < k1 < k2 prints as its three factors in that order. */
  lemma RenderThree(m: Monomial, letter: char, k0: Key, k1: Key, k2: Key)
    requires letter != '1' && m.Keys == {k0, k1, k2}
    requires KeyBefore(k0, k1) && KeyBefore(k1, k2)
    ensures Render(m, letter) == FactorString(letter, k0, m[k0]) + " " + FactorString(letter, k1, m[k1])
                                 + " " + FactorString(letter, k2, m[k2])
  {
    var order := [k0, k1, k2];
    assert k0 in m;
    RenderInOrder(m, letter, order);
    var parts := seq(|order|, p requires 0 <= p < |order| => FactorString(letter, order[p], m[order[p]]));
    assert parts == [FactorString(letter, k0, m[k0]), FactorString(letter, k1, m[k1]), FactorString(letter, k2, m[k2])];
    JoinThree(parts[0], parts[1], parts[2]);
  }

  /** `M({(1,0):1,(2,2):-2,(0,5):10})` prints as `Y(0,5)^10 Y(1,0) Y(2,2)^-2`. */
  lemma YExample()
    ensures Render(map[(1, 0) := 1, (2, 2) := -2, (0, 5) := 10], 'Y') == "Y(0,5)^10 Y(1,0) Y(2,2)^-2"
  {
    var m := map[(1, 0) := 1, (2, 2) := -2, (0, 5) := 10];
    assert m.Keys == {(0, 5), (1, 0), (2, 2)};
    RenderThree(m, 'Y', (0, 5), (1, 0), (2, 2));
    assert m[(0, 5)] == 10 && m[(1, 0)] == 1 && m[(2, 2)] == -2;
    YFactors();
    JoinedExamples();
  }

  /** The A-monomial A(1,1)^-1 A(2,0)^-1 A(4,0)^-1 prints its keys in sorted order. */
  lemma AExample()
    ensures Render(map[(4, 0) := -1, (2, 0) := -1, (1, 1) := -1], 'A') == "A(1,1)^-1 A(2,0)^-1 A(4,0)^-1"
  {
    var m := map[(4, 0) := -1, (2, 0) := -1, (1, 1) := -1];
    assert m.Keys == {(1, 1), (2, 0), (4, 0)};
    RenderThree(m, 'A', (1, 1), (2, 0), (4, 0));
    assert m[(1, 1)] == -1 && m[(2, 0)] == -1 && m[(4, 0)] == -1;
    AFactors();
    JoinedExamples();
  }
}
