/**
 Python's ordering of `str` values (lexicographic by code point) and
 `sorted(set_of_strings)`: a strictly increasing list holding each value once.
 */
module StringOrder {

  /**
   `a` and `b` agree on their first `k` characters, and position `k`
   decides `a < b`: either `a` ends there and `b` goes on, or both go on
   and `a` has the smaller code point there.
   */
  ghost predicate DecidedAt(a: string, b: string, k: nat)
  {
    && k <= |a| && k <= |b| && a[..k] == b[..k]
    && ((k == |a| && k < |b|) || (k < |a| && k < |b| && a[k] < b[k]))
  }

  lemma ShiftDecided(a: string, b: string)
    requires |a| > 0 && |b| > 0 && a[0] == b[0]
    ensures !DecidedAt(a, b, 0)
    ensures forall k: nat :: DecidedAt(a, b, k + 1) <==> DecidedAt(a[1..], b[1..], k)
  {
  }

  /** `a < b` on Python strings: the first differing code point decides, a proper prefix is smaller. */
  predicate Less(a: string, b: string)
    decreases |a|
    ensures Less(a, b) <==> exists k: nat :: DecidedAt(a, b, k)
  {
    if |a| == 0 then
      assert |b| > 0 ==> DecidedAt(a, b, 0);
      |b| > 0
    else if |b| == 0 then false
    else if a[0] != b[0] then
      assert a[0] < b[0] ==> DecidedAt(a, b, 0);
      assert forall k: nat | 0 < k <= |a| && k <= |b| :: a[..k][0] == a[0] && b[..k][0] == b[0];
      a[0] < b[0]
    else
      ShiftDecided(a, b);
      assert forall k: nat | DecidedAt(a, b, k) :: k > 0 && DecidedAt(a[1..], b[1..], k - 1);
      Less(a[1..], b[1..])
  }

  lemma LessIrreflexive(a: string)
    ensures !Less(a, a)
  {
  }

  lemma {:induction false} LessTransitive(a: string, b: string, c: string)
    requires Less(a, b) && Less(b, c)
    ensures Less(a, c)
  {
    if |a| > 0 && |b| > 0 && |c| > 0 && a[0] == b[0] == c[0] {
      LessTransitive(a[1..], b[1..], c[1..]);
    }
  }

  lemma {:induction false} LessTotal(a: string, b: string)
    requires a != b
    ensures Less(a, b) || Less(b, a)
  {
    if |a| > 0 && |b| > 0 && a[0] == b[0] {
      assert a == [a[0]] + a[1..] && b == [b[0]] + b[1..];
      LessTotal(a[1..], b[1..]);
    }
  }

  /** Sorted in Python's order with no value repeated. */
  predicate StrictlyIncreasing(s: seq<string>)
  {
    forall i, j | 0 <= i < j < |s| :: Less(s[i], s[j])
  }

  /** A strictly increasing list repeats no value. */
  lemma {:induction false} NoRepeats(s: seq<string>)
    requires StrictlyIncreasing(s)
    ensures forall i, j | 0 <= i < j < |s| :: s[i] != s[j]
  {
    forall i, j | 0 <= i < j < |s| ensures s[i] != s[j] {
      LessIrreflexive(s[i]);
    }
  }

  lemma HeadBelowRest(s: seq<string>)
    requires StrictlyIncreasing(s) && |s| > 0
    ensures forall y | y in s[1..] :: Less(s[0], y)
  {
  }

  lemma BelowHeadBelowAll(s: seq<string>, x: string)
    requires StrictlyIncreasing(s) && |s| > 0 && Less(x, s[0])
    ensures forall y | y in s :: Less(x, y)
  {
    forall y | y in s ensures Less(x, y) {
      var k :| 0 <= k < |s| && s[k] == y;
      if k > 0 { LessTransitive(x, s[0], y); }
    }
  }

  /** Adds `x` to a sorted duplicate-free list unless it is already there. */
  function Insert(x: string, s: seq<string>): (r: seq<string>)
    requires StrictlyIncreasing(s)
    ensures StrictlyIncreasing(r)
    ensures forall y :: y in r <==> y == x || y in s
  {
    if s == [] then [x]
    else if x == s[0] then s
    else if Less(x, s[0]) then
      BelowHeadBelowAll(s, x);
      [x] + s
    else
      LessTotal(x, s[0]);
      HeadBelowRest(s);
      [s[0]] + Insert(x, s[1..])
  }

  /** Python's `sorted(values)` after de-duplication: every value once, in increasing order. */
  function SortedUnique(xs: seq<string>): (r: seq<string>)
    ensures StrictlyIncreasing(r)
    ensures forall i, j | 0 <= i < j < |r| :: r[i] != r[j]
    ensures forall y :: y in r <==> y in xs
  {
    var r := if xs == [] then [] else Insert(xs[0], SortedUnique(xs[1..]));
    NoRepeats(r);
    r
  }
}
