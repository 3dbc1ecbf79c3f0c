/** send_more_money.py: the cryptarithm SEND + MORE = MONEY as a
    constraint. An assignment maps letters to digits; letters are the
    one-character strings of the source, modelled as characters. */
module SendMoreMoney {
  import opened Wrappers
  import opened Collections

  /** The letters the sum reads. */
  const Used: seq<char> := ['S', 'E', 'N', 'D', 'M', 'O', 'R', 'Y']

  /** Every letter the sum reads has a digit. */
  predicate Covers(a: map<char, int>) {
    forall c :: c in Used ==> c in a
  }

  /** A word read as a decimal numeral, one digit per letter, most
      significant first. */
  function WordValue(word: seq<char>, a: map<char, int>): int
    requires forall c :: c in word ==> c in a
  {
    if |word| == 0 then 0
    else 10 * WordValue(word[..|word| - 1], a) + a[word[|word| - 1]]
  }

  /** `SendMoreMoneyConstraint.satisfied`. A repeated digit fails at once;
      a partial assignment with distinct digits passes; a complete one
      (as many entries as letters) passes exactly when SEND + MORE equals
      MONEY, and a complete one missing one of the eight letters raises
      `KeyError`. */
  function Satisfied(letters: seq<char>, a: map<char, int>): (r: Result<bool>)
    ensures !Injective(a) ==> r == Success(false)
    ensures Injective(a) && |a| != |letters| ==> r == Success(true)
    ensures Injective(a) && |a| == |letters| && !Covers(a) ==> r == Failure(KeyError)
    ensures Injective(a) && |a| == |letters| && Covers(a) ==>
      r == Success(WordValue("SEND", a) + WordValue("MORE", a) == WordValue("MONEY", a))
  {
    ValuesCard(a);
    if |a.Values| < |a| then Success(false)
    else if |a| == |letters| then
      if 'S' in a && 'E' in a && 'N' in a && 'D' in a && 'M' in a && 'O' in a && 'R' in a && 'Y' in a then
        WordValues(a);
        var s, e, n, d := a['S'], a['E'], a['N'], a['D'];
        var m, o, r, y := a['M'], a['O'], a['R'], a['Y'];
        var send := s * 1000 + e * 100 + n * 10 + d;
        var more := m * 1000 + o * 100 + r * 10 + e;
        var money := m * 10000 + o * 1000 + n * 100 + e * 10 + y;
        Success(send + more == money)
      else
        Failure(KeyError)
    else Success(true)
  }

  /** The three words read through the positional formulas of `satisfied`. */
  lemma {:induction false} WordValues(a: map<char, int>)
    requires Covers(a)
    ensures WordValue("SEND", a) == a['S'] * 1000 + a['E'] * 100 + a['N'] * 10 + a['D']
    ensures WordValue("MORE", a) == a['M'] * 1000 + a['O'] * 100 + a['R'] * 10 + a['E']
    ensures WordValue("MONEY", a) == a['M'] * 10000 + a['O'] * 1000 + a['N'] * 100 + a['E'] * 10 + a['Y']
  {
    var s, e, n, d := a['S'], a['E'], a['N'], a['D'];
    var m, o, r, y := a['M'], a['O'], a['R'], a['Y'];
    WordValueSnoc([], 'S', a); assert [] + ['S'] == "S";
    WordValueSnoc("S", 'E', a); assert "S" + ['E'] == "SE";
    WordValueSnoc("SE", 'N', a); assert "SE" + ['N'] == "SEN";
    WordValueSnoc("SEN", 'D', a); assert "SEN" + ['D'] == "SEND";
    assert WordValue("SEND", a) == ((s * 10 + e) * 10 + n) * 10 + d;
    WordValueSnoc([], 'M', a); assert [] + ['M'] == "M";
    WordValueSnoc("M", 'O', a); assert "M" + ['O'] == "MO";
    WordValueSnoc("MO", 'R', a); assert "MO" + ['R'] == "MOR";
    WordValueSnoc("MOR", 'E', a); assert "MOR" + ['E'] == "MORE";
    assert WordValue("MORE", a) == ((m * 10 + o) * 10 + r) * 10 + e;
    WordValueSnoc("MO", 'N', a); assert "MO" + ['N'] == "MON";
    WordValueSnoc("MON", 'E', a); assert "MON" + ['E'] == "MONE";
    WordValueSnoc("MONE", 'Y', a); assert "MONE" + ['Y'] == "MONEY";
    assert WordValue("MONEY", a) == (((m * 10 + o) * 10 + n) * 10 + e) * 10 + y;
  }

  /** Appending a letter shifts the numeral one decimal place. */
  lemma {:induction false} WordValueSnoc(w: seq<char>, c: char, a: map<char, int>)
    requires forall x :: x in w ==> x in a
    requires c in a
    ensures WordValue(w + [c], a) == 10 * WordValue(w, a) + a[c]
  {
    assert (w + [c])[..|w|] == w;
  }

  /** The solver only assigns the puzzle's letters, so an assignment has at
      most as many entries as letters. Within that bound, removing entries
      from a satisfying assignment leaves it satisfying. */
  lemma {:induction false} RemovalKeepsSatisfied(letters: seq<char>, a: map<char, int>, b: map<char, int>)
    requires forall k :: k in b ==> k in a && b[k] == a[k]
    requires |a| <= |letters|
    requires Satisfied(letters, a) == Success(true)
    ensures Satisfied(letters, b) == Success(true)
  {
    assert Injective(a);
    assert Injective(b) by {
      forall k1, k2 | k1 in b && k2 in b && k1 != k2 ensures b[k1] != b[k2] {
        assert b[k1] == a[k1] && b[k2] == a[k2];
      }
    }
    if a.Keys <= b.Keys {
      assert b == a;
    } else {
      var k :| k in a.Keys && k !in b.Keys;
      assert b.Keys <= a.Keys - {k};
      SubsetCard(b.Keys, a.Keys - {k});
      assert |b| < |a|;
    }
  }

  lemma {:induction false} SubsetCard<T>(x: set<T>, y: set<T>)
    requires x <= y
    ensures |x| <= |y|
  {
    assert y == x + (y - x);
  }

  /** The letters of the demo. */
  const Letters: seq<char> := ['S', 'E', 'N', 'D', 'M', 'O', 'R', 'Y']

  /** 9567 + 1085 = 10652. */
  const Solution: map<char, int> := map['S' := 9, 'E' := 5, 'N' := 6, 'D' := 7, 'M' := 1, 'O' := 0, 'R' := 8, 'Y' := 2]

  /** The demo has an answer to find: a complete assignment of distinct
      digits, with 1 for `M`, that satisfies the constraint. */
  lemma {:induction false} SolutionSatisfies()
    ensures Solution['M'] == 1
    ensures Satisfied(Letters, Solution) == Success(true)
  {
    SolutionInjective();
    assert Solution.Keys == {'S', 'E', 'N', 'D', 'M', 'O', 'R', 'Y'};
    assert |Solution| == |Letters|;
    assert Covers(Solution);
    WordValues(Solution);
  }

  lemma {:induction false} SolutionInjective()
    ensures Injective(Solution)
  {
    forall k1, k2 | k1 in Solution && k2 in Solution && k1 != k2 ensures Solution[k1] != Solution[k2] {
      assert k1 in Letters && k2 in Letters;
    }
  }
}
