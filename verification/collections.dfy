/** Facts about sequences, sets and maps that several source files rely on
    through Python idioms such as `len(set(xs)) == len(xs)`. */
module Collections {
  import opened Wrappers

  /** Python's `s.index(x)` and `str.find`: the first position holding `x`,
      or `None` when there is none. */
  function IndexOf<T(==)>(s: seq<T>, x: T): (r: Option<nat>)
    ensures r.None? <==> x !in s
    ensures r.Some? ==> r.value < |s| && s[r.value] == x && x !in s[..r.value]
  {
    if |s| == 0 then None
    else if s[0] == x then Some(0)
    else match IndexOf(s[1..], x)
      case None => None
      case Some(k) => assert s[1..][..k] == s[1..k + 1]; Some(k + 1)
  }

  /** The reverse of a sequence: Python's `list.reverse` and `reversed`. */
  function Reverse<T>(s: seq<T>): (r: seq<T>)
    ensures |r| == |s| && forall i :: 0 <= i < |s| ==> r[i] == s[|s| - 1 - i]
  {
    if |s| == 0 then [] else [s[|s| - 1]] + Reverse(s[..|s| - 1])
  }

  /** No element of `s` occurs twice. */
  predicate NoDup<T(==)>(s: seq<T>) {
    forall i, j :: 0 <= i < j < |s| ==> s[i] != s[j]
  }

  /** A concatenation repeats nothing exactly when neither part does and
      no element of the first occurs in the second. */
  lemma {:induction false} NoDupAppend<T>(s: seq<T>, t: seq<T>)
    ensures NoDup(s + t) <==>
      NoDup(s) && NoDup(t) && forall i, j :: 0 <= i < |s| && 0 <= j < |t| ==> s[i] != t[j]
  {
    var st := s + t;
    if NoDup(st) {
      forall i, j | 0 <= i < |s| && 0 <= j < |t| ensures s[i] != t[j] {
        assert st[i] == s[i] && st[|s| + j] == t[j];
      }
      forall i, j | 0 <= i < j < |t| ensures t[i] != t[j] {
        assert st[|s| + i] == t[i] && st[|s| + j] == t[j];
      }
      forall i, j | 0 <= i < j < |s| ensures s[i] != s[j] {
        assert st[i] == s[i] && st[j] == s[j];
      }
    } else if NoDup(s) && NoDup(t) {
      var i, j :| 0 <= i < j < |st| && st[i] == st[j];
    }
  }

  /** The set of the elements of `s`: Python's `set(s)`. */
  function Elements<T>(s: seq<T>): set<T> {
    set x | x in s
  }

  /** `len(set(s)) == len(s)` holds exactly when `s` has no repeated element. */
  lemma {:induction false} ElementsCard<T>(s: seq<T>)
    ensures |Elements(s)| <= |s|
    ensures |Elements(s)| == |s| <==> NoDup(s)
  {
    if |s| == 0 {
      assert Elements(s) == {};
    } else {
      var t := s[..|s| - 1];
      var x := s[|s| - 1];
      ElementsCard(t);
      assert s == t + [x];
      assert Elements(s) == Elements(t) + {x};
      if x in t {
        assert Elements(s) == Elements(t);
        var k :| 0 <= k < |t| && t[k] == x;
        assert s[k] == s[|s| - 1];
        assert !NoDup(s);
      } else {
        assert x !in Elements(t);
        assert |Elements(s)| == |Elements(t)| + 1;
        if NoDup(t) {
          forall i, j | 0 <= i < j < |s| ensures s[i] != s[j] {
            if j == |s| - 1 {
              assert s[i] == t[i];
            } else {
              assert s[i] == t[i] && s[j] == t[j];
            }
          }
        } else {
          var i, j :| 0 <= i < j < |t| && t[i] == t[j];
          assert s[i] == s[j];
        }
      }
    }
  }

  /** A map from keys to values is injective. */
  predicate Injective<K, V(==)>(m: map<K, V>) {
    forall a, b :: a in m && b in m && a != b ==> m[a] != m[b]
  }

  /** `len(set(d.values())) == len(d)` holds exactly when no two keys share a value. */
  lemma {:induction false} ValuesCard<K, V>(m: map<K, V>)
    ensures |m.Values| <= |m.Keys|
    ensures |m.Values| == |m.Keys| <==> Injective(m)
    decreases |m.Keys|
  {
    if |m.Keys| == 0 {
      assert m.Values == {};
    } else {
      var k :| k in m.Keys;
      var rest := m - {k};
      assert rest.Keys == m.Keys - {k};
      ValuesCard(rest);
      var v := m[k];
      assert m.Values == rest.Values + {v} by {
        forall w | w in m.Values ensures w in rest.Values + {v} {
          var j :| j in m && m[j] == w;
          if j != k { assert rest[j] == w; }
        }
        forall w | w in rest.Values + {v} ensures w in m.Values {
          if w != v {
            var j :| j in rest && rest[j] == w;
            assert m[j] == w;
          }
        }
      }
      if v in rest.Values {
        var j :| j in rest && rest[j] == v;
        assert m[j] == m[k] && j != k;
        assert !Injective(m);
        assert m.Values == rest.Values;
      } else {
        assert |m.Values| == |rest.Values| + 1;
        if Injective(rest) {
          forall a, b | a in m && b in m && a != b ensures m[a] != m[b] {
            if a == k {
              assert b in rest && rest[b] in rest.Values;
            } else if b == k {
              assert a in rest && rest[a] in rest.Values;
            } else {
              assert rest[a] != rest[b];
            }
          }
        } else {
          var a, b :| a in rest && b in rest && a != b && rest[a] == rest[b];
          assert m[a] == m[b];
        }
      }
    }
  }
}
