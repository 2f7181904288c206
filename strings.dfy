/** Sequence and string operations shared by the Java and the Python parts of the model:
    splitting on a literal separator, joining, flattening and stripping. */
module Strings {

  datatype Option<+T> = None | Some(value: T)

  /** `sep` occurs in `s` at index `i`. */
  predicate OccursAt(s: string, sep: string, i: nat)
  {
    i + |sep| <= |s| && s[i..i + |sep|] == sep
  }

  /** `sep` occurs nowhere in `s`. */
  predicate Free(s: string, sep: string)
  {
    forall i: nat :: i <= |s| ==> !OccursAt(s, sep, i)
  }

  /** The leftmost occurrence of `sep` in `s` at or after `from`. */
  function IndexOfFrom(s: string, sep: string, from: nat): (r: Option<nat>)
    requires from <= |s|
    ensures r.Some? ==> from <= r.value && OccursAt(s, sep, r.value)
    ensures r.Some? ==> forall i: nat :: from <= i < r.value ==> !OccursAt(s, sep, i)
    ensures r.None? ==> forall i: nat :: from <= i <= |s| ==> !OccursAt(s, sep, i)
    decreases |s| - from
  {
    if from + |sep| > |s| then None
    else if s[from..from + |sep|] == sep then Some(from)
    else IndexOfFrom(s, sep, from + 1)
  }

  /** Split `s` at every leftmost, non-overlapping occurrence of `sep`, keeping every piece
      (this is Python's `str.split(sep)`). */
  function Split(s: string, sep: string): (pieces: seq<string>)
    requires |sep| > 0
    ensures |pieces| >= 1
    decreases |s|
  {
    match IndexOfFrom(s, sep, 0)
    case None => [s]
    case Some(k) => [s[..k]] + Split(s[k + |sep|..], sep)
  }

  /** Python's `sep.join(pieces)`, Java's `String.join(sep, pieces)`. */
  function Join(pieces: seq<string>, sep: string): string
  {
    if |pieces| == 0 then ""
    else if |pieces| == 1 then pieces[0]
    else Join(pieces[..|pieces| - 1], sep) + sep + pieces[|pieces| - 1]
  }

  /** The concatenation of a sequence of sequences. */
  function Flatten<T>(xss: seq<seq<T>>): seq<T>
  {
    if xss == [] then [] else Flatten(xss[..|xss| - 1]) + xss[|xss| - 1]
  }

  /** Join every group of lines on its own. */
  function JoinEach(groups: seq<seq<string>>, sep: string): (r: seq<string>)
    ensures |r| == |groups|
    ensures forall i :: 0 <= i < |groups| ==> r[i] == Join(groups[i], sep)
  {
    if groups == [] then []
    else JoinEach(groups[..|groups| - 1], sep) + [Join(groups[|groups| - 1], sep)]
  }

  /** The number of leading characters of `s` that satisfy `p`. */
  function LeadingRun(s: string, p: char -> bool): (n: nat)
    ensures n <= |s|
    ensures forall i :: 0 <= i < n ==> p(s[i])
    ensures n < |s| ==> !p(s[n])
  {
    if s == [] || !p(s[0]) then 0 else 1 + LeadingRun(s[1..], p)
  }

  /** The index where the trailing run of characters satisfying `p` begins. */
  function TrailingRunStart(s: string, p: char -> bool): (m: nat)
    ensures m <= |s|
    ensures forall i :: m <= i < |s| ==> p(s[i])
    ensures 0 < m ==> !p(s[m - 1])
  {
    if s == [] || !p(s[|s| - 1]) then |s| else TrailingRunStart(s[..|s| - 1], p)
  }

  /** `LeadingRun` is the length of the longest prefix whose characters satisfy `p`. */
  lemma {:induction false} LeadingRunIs(s: string, p: char -> bool, k: nat)
    requires k <= |s| && (forall i :: 0 <= i < k ==> p(s[i])) && (k < |s| ==> !p(s[k]))
    ensures LeadingRun(s, p) == k
    decreases k
  {
    if k > 0 {
      assert p(s[0]);
      assert forall i :: 0 <= i < k - 1 ==> s[1..][i] == s[i + 1];
      LeadingRunIs(s[1..], p, k - 1);
    }
  }

  /** `s` neither begins nor ends with a character satisfying `p`. */
  predicate StrippedBy(s: string, p: char -> bool)
  {
    s == [] || (!p(s[0]) && !p(s[|s| - 1]))
  }

  /** Remove the leading and the trailing characters that satisfy `p`. The result is the slice of
      `s` that remains once the two runs are cut off. */
  function StripBy(s: string, p: char -> bool): (r: string)
    ensures StrippedBy(r, p)
    ensures LeadingRun(s, p) + |r| <= |s|
    ensures r == s[LeadingRun(s, p)..LeadingRun(s, p) + |r|]
    ensures forall i :: LeadingRun(s, p) + |r| <= i < |s| ==> p(s[i])
    ensures StrippedBy(s, p) ==> r == s
  {
    var lo := LeadingRun(s, p);
    var rest := s[lo..];
    var hi := TrailingRunStart(rest, p);
    assert hi > 0 ==> rest[0] == s[lo] && !p(rest[0]);
    rest[..hi]
  }

  /** A non-empty sequence is its front followed by its last element. */
  lemma FrontLast<T>(xs: seq<T>)
    requires xs != []
    ensures xs == xs[..|xs| - 1] + [xs[|xs| - 1]]
  {
  }

  lemma AppendEmpty<T>(a: seq<T>)
    ensures a + [] == a && [] + a == a
  {
  }

  lemma TakeNone<T>(xs: seq<T>)
    ensures xs[..0] == []
  {
  }

  lemma TakeAll<T>(xs: seq<T>)
    ensures xs[..|xs|] == xs
  {
  }

  lemma TakeAppend<T>(a: seq<T>, b: seq<T>, k: nat)
    requires k <= |a|
    ensures (a + b)[..k] == a[..k]
  {
  }

  lemma SliceOfSlice<T>(s: seq<T>, a: nat, b: nat, i: nat, j: nat)
    requires a <= b <= |s| && i <= j <= b - a
    ensures s[a..b][i..j] == s[a + i..a + j]
  {
    forall k | 0 <= k < j - i ensures s[a..b][i..j][k] == s[a + i..a + j][k] {
    }
  }

  lemma AppendAssoc<T>(a: seq<T>, b: seq<T>, c: seq<T>)
    ensures (a + b) + c == a + (b + c)
  {
  }

  lemma JoinAppend(a: seq<string>, b: seq<string>, sep: string)
    requires a != [] && b != []
    ensures Join(a + b, sep) == Join(a, sep) + sep + Join(b, sep)
    decreases |b|
  {
    var ab := a + b;
    if |b| == 1 {
      assert ab[..|ab| - 1] == a;
    } else {
      var b' := b[..|b| - 1];
      assert ab[..|ab| - 1] == a + b';
      JoinAppend(a, b', sep);
    }
  }

  lemma JoinCons(x: string, tail: seq<string>, sep: string)
    requires tail != []
    ensures Join([x] + tail, sep) == x + sep + Join(tail, sep)
  {
    JoinAppend([x], tail, sep);
  }

  lemma SplitAround(s: string, sep: string, k: nat)
    requires OccursAt(s, sep, k)
    ensures s == s[..k] + sep + s[k + |sep|..]
  {
    assert s == s[..k] + s[k..k + |sep|] + s[k + |sep|..];
  }

  lemma {:induction false} SplitJoin(s: string, sep: string)
    requires |sep| > 0
    ensures Join(Split(s, sep), sep) == s
    decreases |s|
  {
    match IndexOfFrom(s, sep, 0)
    case None =>
    case Some(k) =>
      var rest := s[k + |sep|..];
      SplitJoin(rest, sep);
      JoinCons(s[..k], Split(rest, sep), sep);
      SplitAround(s, sep, k);
  }

  lemma {:induction false} SplitPiecesFree(s: string, sep: string)
    requires |sep| > 0
    ensures forall piece <- Split(s, sep) :: Free(piece, sep)
    decreases |s|
  {
    match IndexOfFrom(s, sep, 0)
    case None =>
    case Some(k) =>
      var rest := s[k + |sep|..];
      SplitPiecesFree(rest, sep);
      var head := s[..k];
      forall i: nat | i <= |head| ensures !OccursAt(head, sep, i) {
        if OccursAt(head, sep, i) {
          assert head[i..i + |sep|] == s[i..i + |sep|];
          assert OccursAt(s, sep, i);
        }
      }
  }

  lemma FlattenAppend<T>(a: seq<seq<T>>, b: seq<seq<T>>)
    ensures Flatten(a + b) == Flatten(a) + Flatten(b)
    decreases |b|
  {
    if b == [] {
      assert a + b == a;
    } else {
      var b' := b[..|b| - 1];
      assert (a + b)[..|a + b| - 1] == a + b';
      FlattenAppend(a, b');
    }
  }

  lemma FlattenMember<T>(xss: seq<seq<T>>, x: T)
    requires x in Flatten(xss)
    ensures exists k :: 0 <= k < |xss| && x in xss[k]
    decreases |xss|
  {
    var n := |xss| - 1;
    if x !in xss[n] {
      FlattenMember(xss[..n], x);
      var k :| 0 <= k < n && x in xss[..n][k];
      assert xss[k] == xss[..n][k];
    }
  }

  /** Joining the joined groups again is joining all their lines: regrouping lines into
      non-empty groups does not change the joined text. */
  lemma {:induction false} JoinFlatten(groups: seq<seq<string>>, sep: string)
    requires forall g <- groups :: g != []
    ensures Join(JoinEach(groups, sep), sep) == Join(Flatten(groups), sep)
    decreases |groups|
  {
    if |groups| > 1 {
      var n := |groups| - 1;
      var front := groups[..n];
      assert forall g <- front :: g in groups;
      JoinFlatten(front, sep);
      assert front[n - 1] in groups;
      assert Flatten(front) != [];
      assert groups[n] in groups;
      JoinAppend(Flatten(front), groups[n], sep);
    } else if |groups| == 1 {
      assert groups[..0] == [];
      assert Flatten(groups) == groups[0];
      assert JoinEach(groups, sep) == [Join(groups[0], sep)];
    }
  }
}
