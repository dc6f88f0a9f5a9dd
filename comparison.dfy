/**
 The free comparison operators of SingleLinkedList. Each one walks the two
 lists from begin() to end(), so it is modelled on the element sequences those
 walks produce (a list's `contents`).

 `==` and `!=` call the three-argument std::equal, which compares `lhs` against
 the first |lhs| elements of `rhs` only. That is modelled as written (`Equal`,
 `NotEqual`) together with the comparison the operators evidently mean
 (`ListEqual`, `ListNotEqual`).

 The four ordering operators call std::lexicographical_compare with the
 element type's `<`; they are modelled for integer elements.
 */
module Comparison {

  /** The three-argument std::equal: every element of `lhs` equals the element
      of `rhs` at the same index. `rhs` must be at least as long as `lhs`,
      since the walk over `rhs` is never bounds-checked. */
  function Equal<T(==)>(lhs: seq<T>, rhs: seq<T>): (b: bool)
    requires |lhs| <= |rhs|
    ensures b <==> lhs == rhs[..|lhs|]
  {
    if lhs == [] then true
    else
      assert rhs[..|lhs|] == [rhs[0]] + rhs[1..][..|lhs| - 1];
      lhs[0] == rhs[0] && Equal(lhs[1..], rhs[1..])
  }

  /** `operator!=` as written: the negation of the same prefix test. */
  function NotEqual<T(==)>(lhs: seq<T>, rhs: seq<T>): (b: bool)
    requires |lhs| <= |rhs|
    ensures b <==> lhs != rhs[..|lhs|]
  {
    !Equal(lhs, rhs)
  }

  /** As written, `==` holds between a list and any longer list that starts
      with the same elements, and `!=` fails there. */
  lemma EqualAcceptsProperPrefix<T>(lhs: seq<T>, rhs: seq<T>)
    requires |lhs| < |rhs| && lhs == rhs[..|lhs|]
    ensures Equal(lhs, rhs) && !NotEqual(lhs, rhs) && lhs != rhs
  {
  }

  /** A concrete instance: {1, 2} == {1, 2, 3} holds as written. */
  lemma PrefixComparesEqual()
    ensures Equal([1, 2], [1, 2, 3]) && [1, 2] != [1, 2, 3]
  {
  }

  /** `operator==` as intended: same length and the same elements in order. */
  function ListEqual<T(==)>(lhs: seq<T>, rhs: seq<T>): (b: bool)
    ensures b <==> lhs == rhs
  {
    |lhs| == |rhs| && Equal(lhs, rhs)
  }

  /** `operator!=` as intended. */
  function ListNotEqual<T(==)>(lhs: seq<T>, rhs: seq<T>): (b: bool)
    ensures b <==> lhs != rhs
  {
    !ListEqual(lhs, rhs)
  }

  /** std::lexicographical_compare over the two element sequences: walk both
      while `rhs` has elements; `lhs` running out first, or a smaller element
      in `lhs`, decides `true`; a smaller element in `rhs` decides `false`. */
  function Less(lhs: seq<int>, rhs: seq<int>): (b: bool)
    ensures rhs == [] ==> !b
    ensures lhs == [] ==> (b <==> rhs != [])
  {
    if rhs == [] then false
    else if lhs == [] || lhs[0] < rhs[0] then true
    else if rhs[0] < lhs[0] then false
    else Less(lhs[1..], rhs[1..])
  }

  /** The lexicographic order as usually defined: `l` is a proper prefix of
      `r`, or the two agree up to some index where `l` holds the smaller element. */
  ghost predicate LexicographicallyBefore(l: seq<int>, r: seq<int>)
  {
    (|l| < |r| && forall j :: 0 <= j < |l| ==> l[j] == r[j]) ||
    exists k :: 0 <= k < |l| && k < |r| && l[k] < r[k] && forall j :: 0 <= j < k ==> l[j] == r[j]
  }

  lemma {:induction false} LessIsLexicographic(l: seq<int>, r: seq<int>)
    ensures Less(l, r) <==> LexicographicallyBefore(l, r)
    decreases |l|
  {
    if r == [] {
    } else if l == [] {
    } else if l[0] < r[0] {
    } else if r[0] < l[0] {
    } else {
      var l', r' := l[1..], r[1..];
      LessIsLexicographic(l', r');
      if LexicographicallyBefore(l', r') {
        if |l'| < |r'| && forall j :: 0 <= j < |l'| ==> l'[j] == r'[j] {
          assert forall j :: 0 <= j < |l| ==> l[j] == r[j] by {
            forall j | 0 < j < |l| ensures l[j] == r[j] {
              assert l[j] == l'[j - 1];
            }
          }
        } else {
          var k :| 0 <= k < |l'| && k < |r'| && l'[k] < r'[k] && forall j :: 0 <= j < k ==> l'[j] == r'[j];
          assert l[k + 1] < r[k + 1];
          forall j | 0 < j < k + 1 ensures l[j] == r[j] {
            assert l[j] == l'[j - 1];
          }
        }
      }
      if LexicographicallyBefore(l, r) {
        if |l| < |r| && forall j :: 0 <= j < |l| ==> l[j] == r[j] {
          assert forall j :: 0 <= j < |l'| ==> l'[j] == r'[j] by {
            forall j | 0 <= j < |l'| ensures l'[j] == r'[j] {
              assert l[j + 1] == r[j + 1];
            }
          }
        } else {
          var k :| 0 <= k < |l| && k < |r| && l[k] < r[k] && forall j :: 0 <= j < k ==> l[j] == r[j];
          assert k != 0;
          assert l'[k - 1] < r'[k - 1];
          forall j | 0 <= j < k - 1 ensures l'[j] == r'[j] {
            assert l[j + 1] == r[j + 1];
          }
        }
      }
    }
  }

  lemma {:induction false} LessIrreflexive(s: seq<int>)
    ensures !Less(s, s)
    decreases |s|
  {
    if s != [] {
      LessIrreflexive(s[1..]);
    }
  }

  lemma {:induction false} LessAsymmetric(l: seq<int>, r: seq<int>)
    ensures Less(l, r) ==> !Less(r, l)
    decreases |l|
  {
    if l != [] && r != [] && l[0] == r[0] {
      LessAsymmetric(l[1..], r[1..]);
    }
  }

  lemma {:induction false} LessTransitive(a: seq<int>, b: seq<int>, c: seq<int>)
    requires Less(a, b) && Less(b, c)
    ensures Less(a, c)
    decreases |a|
  {
    if a != [] && a[0] == b[0] && b[0] == c[0] {
      LessTransitive(a[1..], b[1..], c[1..]);
    }
  }

  /** Any two sequences are ordered one way or the other, or are equal. */
  lemma {:induction false} LessTotal(l: seq<int>, r: seq<int>)
    ensures Less(l, r) || l == r || Less(r, l)
    decreases |l|
  {
    if l != [] && r != [] && l[0] == r[0] {
      LessTotal(l[1..], r[1..]);
      if l[1..] == r[1..] {
        assert l == [l[0]] + l[1..] && r == [r[0]] + r[1..];
      }
    }
  }

  /** `operator<`. */
  function ListLess(lhs: seq<int>, rhs: seq<int>): (b: bool)
    ensures b <==> LexicographicallyBefore(lhs, rhs)
  {
    LessIsLexicographic(lhs, rhs);
    Less(lhs, rhs)
  }

  /** `operator<=`: not (`rhs` before `lhs`). */
  function ListLessOrEqual(lhs: seq<int>, rhs: seq<int>): (b: bool)
    ensures b <==> Less(lhs, rhs) || lhs == rhs
  {
    LessTotal(lhs, rhs);
    LessAsymmetric(lhs, rhs);
    LessIrreflexive(lhs);
    !Less(rhs, lhs)
  }

  /** `operator>`: `rhs` before `lhs`. */
  function ListGreater(lhs: seq<int>, rhs: seq<int>): (b: bool)
    ensures b <==> LexicographicallyBefore(rhs, lhs)
  {
    LessIsLexicographic(rhs, lhs);
    Less(rhs, lhs)
  }

  /** `operator>=`: not (`lhs` before `rhs`). */
  function ListGreaterOrEqual(lhs: seq<int>, rhs: seq<int>): (b: bool)
    ensures b <==> Less(rhs, lhs) || lhs == rhs
  {
    LessTotal(lhs, rhs);
    LessAsymmetric(lhs, rhs);
    LessIrreflexive(lhs);
    !Less(lhs, rhs)
  }

  /** The intended equality is the one the ordering induces. */
  lemma EqualityAgreesWithOrder(lhs: seq<int>, rhs: seq<int>)
    ensures ListEqual(lhs, rhs) <==> ListLessOrEqual(lhs, rhs) && ListGreaterOrEqual(lhs, rhs)
  {
  }

  /** A proper prefix comes first: {1, 2} < {1, 2, 3}. */
  lemma PrefixComesFirst()
    ensures ListLess([1, 2], [1, 2, 3]) && !ListGreaterOrEqual([1, 2], [1, 2, 3])
  {
  }
}
