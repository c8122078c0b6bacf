/**
 * The order in which the menus list names: Python compares `str` values
 * lexicographically by code point, and a proper prefix comes first.
 */
module StringOrder {

  /** `a` sorts strictly before `b`. */
  predicate Less(a: string, b: string)
  {
    if b == [] then false
    else if a == [] then true
    else a[0] < b[0] || (a[0] == b[0] && Less(a[1..], b[1..]))
  }

  predicate LessEq(a: string, b: string)
  {
    a == b || Less(a, b)
  }

  /** Every pair of adjacent elements is in order (duplicates allowed). */
  predicate Ascending(s: seq<string>)
  {
    forall i :: 0 <= i < |s| - 1 ==> LessEq(s[i], s[i + 1])
  }

  /** Every earlier element sorts strictly before every later one. */
  predicate StrictlyAscending(s: seq<string>)
  {
    forall i, j :: 0 <= i < j < |s| ==> Less(s[i], s[j])
  }

  lemma {:induction false} LessIrreflexive(a: string)
    ensures !Less(a, a)
  {
    if a != [] {
      LessIrreflexive(a[1..]);
    }
  }

  lemma {:induction false} LessTransitive(a: string, b: string, c: string)
    requires Less(a, b) && Less(b, c)
    ensures Less(a, c)
  {
    if a != [] && a[0] == b[0] && b[0] == c[0] {
      LessTransitive(a[1..], b[1..], c[1..]);
    }
  }

  /** Any two distinct strings are ordered one way or the other. */
  lemma {:induction false} LessTotal(a: string, b: string)
    ensures a == b || Less(a, b) || Less(b, a)
  {
    if a != [] && b != [] && a[0] == b[0] {
      LessTotal(a[1..], b[1..]);
      if a[1..] == b[1..] {
        assert a == [a[0]] + a[1..] && b == [b[0]] + b[1..];
      }
    }
  }

  /** Adjacent strict order extends to every pair, so nothing repeats. */
  lemma {:induction false} AdjacentStrictIsStrict(s: seq<string>)
    requires forall i :: 0 <= i < |s| - 1 ==> Less(s[i], s[i + 1])
    ensures StrictlyAscending(s)
  {
    if |s| > 1 {
      AdjacentStrictIsStrict(s[1..]);
      forall j | 1 < j < |s| ensures Less(s[0], s[j]) {
        assert s[1..][0] == s[1] && s[1..][j - 1] == s[j];
        LessTransitive(s[0], s[1], s[j]);
      }
    }
  }

  /** Sorted without duplicates means strictly ascending. */
  lemma SortedDistinctIsStrict(s: seq<string>)
    requires Ascending(s) && forall i, j :: 0 <= i < j < |s| ==> s[i] != s[j]
    ensures StrictlyAscending(s)
  {
    AdjacentStrictIsStrict(s);
  }

  /** A strictly ascending sequence never repeats an element. */
  lemma StrictlyAscendingDistinct(s: seq<string>)
    requires StrictlyAscending(s)
    ensures forall i, j :: 0 <= i < j < |s| ==> s[i] != s[j]
  {
    forall i, j | 0 <= i < j < |s| ensures s[i] != s[j] {
      LessIrreflexive(s[i]);
    }
  }
}
