/** komb.c: every word of c letters, by recursion over a growing prefix. */
module Komb {
  import opened Bits

  const BUFFER: nat := 20

  function Letter(d: nat): char
    requires d < 26
  {
    'A' + d as char
  }

  function Pow26(n: nat): (p: nat)
    ensures p >= 1
  {
    if n == 0 then 1 else 26 * Pow26(n - 1)
  }

  // The words with letters d, d + 1, ..., 25 after the prefix and c - 1 more behind.
  function From(c: nat, prefix: string, d: nat): seq<string>
    requires c > 0 && d <= 26
    decreases c, 27 - d
  {
    if d == 26 then [] else Words(c - 1, prefix + [Letter(d)]) + From(c, prefix, d + 1)
  }

  // What a call with count c and string prefix prints.
  function Words(c: nat, prefix: string): seq<string>
    decreases c, 28
  {
    if c == 0 then [prefix] else From(c, prefix, 0)
  }

  // funkce, lines 10-28; out is the standard output, line by line.
  method Funkce(c: nat, pis: string, out0: seq<string>) returns (out: seq<string>)
    requires |pis| + c < BUFFER
    ensures out == out0 + Words(c, pis)
    decreases c
  {
    out := out0;
    if c == 0 {
      out := out + [pis];
    } else {
      ghost var all := From(c, pis, 0);
      var x := 0;
      while x < 26
        invariant 0 <= x <= 26
        invariant out + From(c, pis, x) == out0 + all
      {
        var pom := new char[BUFFER];
        forall i | 0 <= i < |pis| {
          pom[i] := pis[i];                    // a copy of the word so far
        }
        var a := |pis|;
        pom[a] := Letter(x);
        pom[a + 1] := '\0';
        assert pom[..a + 1] == pis + [Letter(x)];
        out := Funkce(c - 1, pom[..a + 1], out);
        x := x + 1;
      }
    }
  }

  // ---------- which words, and in which order ----------

  // The prefix and c capital letters.
  predicate Extends(w: string, prefix: string, c: nat)
  {
    && |w| == |prefix| + c && w[..|prefix|] == prefix
    && forall i :: |prefix| <= i < |w| ==> 'A' <= w[i] <= 'Z'
  }

  // A word is printed exactly when it is the prefix and c capital letters.
  lemma {:induction false} WordsAreExactly(c: nat, prefix: string, w: string)
    ensures w in Words(c, prefix) <==> Extends(w, prefix, c)
    decreases c, 28
  {
    if c == 0 {
      assert Extends(w, prefix, 0) ==> w == w[..|prefix|];
    } else {
      FromIsExactly(c, prefix, 0, w);
    }
  }

  lemma {:induction false} FromIsExactly(c: nat, prefix: string, d: nat, w: string)
    requires c > 0 && d <= 26
    ensures w in From(c, prefix, d) <==> Extends(w, prefix, c) && w[|prefix|] as int >= 'A' as int + d
    decreases c, 27 - d
  {
    if d < 26 {
      var longer := prefix + [Letter(d)];
      WordsAreExactly(c - 1, longer, w);
      FromIsExactly(c, prefix, d + 1, w);
      hide From, Words;
      OneLetterMore(w, prefix, c, d);
    }
  }

  lemma OneLetterMore(w: string, prefix: string, c: nat, d: nat)
    requires c > 0 && d < 26
    ensures Extends(w, prefix + [Letter(d)], c - 1) <==> Extends(w, prefix, c) && w[|prefix|] as int == 'A' as int + d
  {
    var n := |prefix|;
    if |w| == n + c {
      assert w[..n + 1] == w[..n] + [w[n]];
      assert prefix + [Letter(d)] == w[..n + 1] ==> prefix == w[..n] by {
        assert (prefix + [Letter(d)])[..n] == prefix;
        assert w[..n + 1][..n] == w[..n];
      }
      assert prefix + [Letter(d)] == w[..n + 1] ==> w[n] == Letter(d) by {
        assert (prefix + [Letter(d)])[n] == Letter(d);
      }
    }
  }

  // k written with c base-26 digits, most significant first.
  function Numeral(c: nat, k: nat): (s: string)
    requires k < Pow26(c)
    ensures |s| == c
  {
    if c == 0 then []
    else
      TopDigitFits(c, k);
      [Letter(k / Pow26(c - 1))] + Numeral(c - 1, k % Pow26(c - 1))
  }

  lemma TopDigitFits(c: nat, k: nat)
    requires c > 0 && k < Pow26(c)
    ensures 0 <= k / Pow26(c - 1) < 26 && 0 <= k % Pow26(c - 1) < Pow26(c - 1)
  {
    hide Pow26;
    var p := Pow26(c - 1);
    assert Pow26(c) == 26 * p by {
      Pow26Step(c);
    }
    DivNonnegative(k, p);
    MulCancelLt(k / p, 26, p);
  }

  lemma NumeralStep(c: nat, k: nat, p: nat) returns (q: nat, r: nat)
    requires c > 0 && k < Pow26(c) && p == Pow26(c - 1)
    ensures q < 26 && r < p && k == q * p + r
    ensures Numeral(c, k) == [Letter(q)] + Numeral(c - 1, r)
  {
    TopDigitFits(c, k);
    q, r := k / p, k % p;
  }

  lemma Pow26Step(c: nat)
    requires c > 0
    ensures Pow26(c) == 26 * Pow26(c - 1)
  {
  }

  lemma {:induction false} WordsCount(c: nat, prefix: string)
    ensures |Words(c, prefix)| == Pow26(c)
    decreases c, 28
  {
    if c > 0 {
      FromCount(c, prefix, 0, Pow26(c - 1));
    }
  }

  lemma {:induction false} FromCount(c: nat, prefix: string, d: nat, p: nat)
    requires c > 0 && d <= 26 && p == Pow26(c - 1)
    ensures |From(c, prefix, d)| == (26 - d) * p
    decreases c, 27 - d
  {
    hide Words, Pow26;
    if d < 26 {
      WordsCount(c - 1, prefix + [Letter(d)]);
      FromCount(c, prefix, d + 1, p);
      MulDistributes(26 - (d + 1), 1, p);
    }
  }

  // The k-th word is the prefix and the numeral of k.
  lemma {:induction false} WordAt(c: nat, prefix: string, k: nat)
    requires k < Pow26(c)
    ensures |Words(c, prefix)| == Pow26(c)
    ensures Words(c, prefix)[k] == prefix + Numeral(c, k)
    decreases c, 28
  {
    WordsCount(c, prefix);
    if c == 0 {
      assert prefix + [] == prefix;
    } else {
      assert Words(c, prefix) == From(c, prefix, 0);
      hide Words, From, Numeral, Pow26;
      var p := Pow26(c - 1);
      var q, r := NumeralStep(c, k, p);
      FromAt(c, prefix, 0, q, r, p);
      assert prefix + [Letter(q)] + Numeral(c - 1, r) == prefix + ([Letter(q)] + Numeral(c - 1, r));
    }
  }

  lemma {:induction false} FromAt(c: nat, prefix: string, d: nat, e: nat, r: nat, p: nat)
    requires c > 0 && d <= e < 26 && p == Pow26(c - 1) && r < p
    ensures 0 <= (e - d) * p + r < |From(c, prefix, d)|
    ensures From(c, prefix, d)[(e - d) * p + r] == prefix + [Letter(e)] + Numeral(c - 1, r)
    decreases c, 27 - d
  {
    hide Words, Pow26;
    WordsCount(c - 1, prefix + [Letter(d)]);
    FromCount(c, prefix, d, p);
    MulDistributes(e - d, 1, p);
    MulLe(e - d + 1, 26 - d, p);
    MulLe(0, e - d, p);
    if e == d {
      WordAt(c - 1, prefix + [Letter(d)], r);
    } else {
      MulDistributes(e - (d + 1), 1, p);
      FromAt(c, prefix, d + 1, e, r, p);
    }
  }

  // A numeral read back digit by digit.
  function Value(s: string): int
  {
    if s == [] then 0 else Value(s[..|s| - 1]) * 26 + (s[|s| - 1] as int - 'A' as int)
  }

  lemma {:induction false} ValueFromFirst(c: char, s: string)
    ensures Value([c] + s) == (c as int - 'A' as int) * Pow26(|s|) + Value(s)
    decreases |s|
  {
    var t := [c] + s;
    if s == [] {
      assert t[..0] == [];
      assert Value(t[..0]) == 0;
    } else {
      var n := |s| - 1;
      assert t[..|t| - 1] == [c] + s[..n];
      ValueFromFirst(c, s[..n]);
      Pow26Step(|s|);
      hide Pow26;
      MulSwap(c as int - 'A' as int, Pow26(n), 26);
      MulDistributes((c as int - 'A' as int) * Pow26(n), Value(s[..n]), 26);
    }
  }

  lemma {:induction false} NumeralValue(c: nat, k: nat)
    requires k < Pow26(c)
    ensures Value(Numeral(c, k)) == k
    ensures forall i :: 0 <= i < c ==> 'A' <= Numeral(c, k)[i] <= 'Z'
  {
    if c > 0 {
      hide Numeral, Pow26, Value;
      var p := Pow26(c - 1);
      var q, r := NumeralStep(c, k, p);
      NumeralValue(c - 1, r);
      ValueFromFirst(Letter(q), Numeral(c - 1, r));
      assert 'A' <= Letter(q) <= 'Z';
    } else {
      assert k == 0;
    }
  }

  // Lexicographic order of words of the same length.
  predicate Before(s: string, t: string)
    requires |s| == |t|
  {
    s != [] && (s[0] < t[0] || (s[0] == t[0] && Before(s[1..], t[1..])))
  }

  lemma {:induction false} NumeralsIncrease(c: nat, i: nat, j: nat)
    requires i < j < Pow26(c)
    ensures Before(Numeral(c, i), Numeral(c, j))
  {
    assert c > 0;
    hide Numeral, Pow26;
    var p := Pow26(c - 1);
    var q, r := NumeralStep(c, i, p);
    var u, v := NumeralStep(c, j, p);
    var s, t := Numeral(c, i), Numeral(c, j);
    assert s[1..] == Numeral(c - 1, r) && t[1..] == Numeral(c - 1, v);
    if q == u {
      NumeralsIncrease(c - 1, r, v);
    } else {
      MulDistributes(u, 1, p);
      if u < q {
        MulLe(u + 1, q, p);
      }
    }
  }

  // The whole output: 26^c words that extend the prefix, the k-th by the numeral of k,
  // each one after the word before it.
  lemma WordsAreAllNumerals(c: nat, prefix: string)
    ensures |Words(c, prefix)| == Pow26(c)
    ensures forall k :: 0 <= k < Pow26(c) ==> Words(c, prefix)[k] == prefix + Numeral(c, k)
    ensures forall i, j :: 0 <= i < j < Pow26(c) ==> Before(Numeral(c, i), Numeral(c, j))
  {
    hide Words, Numeral, Before;
    WordsCount(c, prefix);
    forall k | 0 <= k < Pow26(c)
      ensures Words(c, prefix)[k] == prefix + Numeral(c, k)
    {
      WordAt(c, prefix, k);
    }
    forall i, j | 0 <= i < j < Pow26(c)
      ensures Before(Numeral(c, i), Numeral(c, j))
    {
      NumeralsIncrease(c, i, j);
    }
  }
}
