/**
 * The list of places offered for reviews: every stop of every themed course,
 * with its "N. " numbering cut off, without repetitions, in Python's string
 * order (code point by code point, a proper prefix first).
 */
module Courses {
  import opened Options
  import opened Seqs
  import opened Text

  /** What separates a stop's number from its name. */
  const Separator := ". "

  /** `name.split(". ")[1] if ". " in name else name`. */
  function StopLabel(name: string): (r: string)
    ensures !Contains(name, Separator) ==> r == name
    ensures Contains(name, Separator) ==> !Contains(r, Separator) && exists i :: PieceAfterFirst(name, Separator, i, r)
  {
    if Contains(name, Separator) then SecondPiece(name, Separator) else name
  }

  /**
   * A numbered stop "N. name" is listed as "name": the number holds no
   * full stop and the name no ". ".
   */
  lemma NumberedStop(num: string, rest: string)
    requires '.' !in num && !Contains(rest, Separator)
    ensures StopLabel(num + Separator + rest) == rest
  {
    var s := num + Separator + rest;
    var start := |num| + 2;
    assert OccursAt(s, Separator, |num|);
    forall j | 0 <= j < |num| ensures !OccursAt(s, Separator, j) {
      assert s[j] == num[j];
    }
    assert FindFrom(s, Separator, 0) == Some(|num|);
    assert s[start..] == rest;
    forall j | start <= j ensures !OccursAt(s, Separator, j) {
      if OccursAt(s, Separator, j) {
        assert rest[j - start..j - start + 2] == s[j..j + 2];
        assert OccursAt(rest, Separator, j - start);
      }
    }
    assert FindFrom(s, Separator, start) == None;
  }

  /** Python's `a < b` on strings: code point by code point, a proper prefix first. */
  predicate Less(a: string, b: string)
  {
    if a == [] then b != []
    else if b == [] then false
    else a[0] < b[0] || (a[0] == b[0] && Less(a[1..], b[1..]))
  }

  /** `a` is a proper prefix of `b`. */
  ghost predicate ProperPrefix(a: string, b: string)
  {
    |a| < |b| && a == b[..|a|]
  }

  /** `a` and `b` agree before index `i` and differ there, `a` holding the smaller code point. */
  ghost predicate SmallerAt(a: string, b: string, i: int)
  {
    0 <= i < |a| && i < |b| && a[..i] == b[..i] && a[i] < b[i]
  }

  /**
   * Python's string order, stated the way its documentation does: `a` comes
   * first when it is a proper prefix of `b`, or when at the first position
   * where they differ `a` holds the smaller code point.
   */
  lemma {:induction false} LessIsLexicographic(a: string, b: string)
    ensures Less(a, b) <==> ProperPrefix(a, b) || exists i :: SmallerAt(a, b, i)
  {
    if a != [] && b != [] {
      LessIsLexicographic(a[1..], b[1..]);
      PrefixAfterFirst(a, b);
      SmallerAfterFirst(a, b);
    }
  }

  lemma PrefixAfterFirst(a: string, b: string)
    requires a != [] && b != []
    ensures ProperPrefix(a, b) <==> a[0] == b[0] && ProperPrefix(a[1..], b[1..])
  {
    if ProperPrefix(a, b) {
      assert a[0] == b[..|a|][0];
      assert a[1..] == b[..|a|][1..] == b[1..][..|a| - 1];
    }
    if a[0] == b[0] && ProperPrefix(a[1..], b[1..]) {
      assert a == [a[0]] + a[1..];
      assert b[..|a|] == [b[0]] + b[1..][..|a| - 1];
    }
  }

  lemma SmallerAfterFirst(a: string, b: string)
    requires a != [] && b != []
    ensures (exists i :: SmallerAt(a, b, i)) <==>
            a[0] < b[0] || (a[0] == b[0] && exists i :: SmallerAt(a[1..], b[1..], i))
  {
    var a', b' := a[1..], b[1..];
    if a[0] < b[0] {
      assert SmallerAt(a, b, 0);
    }
    if a[0] == b[0] && exists i :: SmallerAt(a', b', i) {
      var i :| SmallerAt(a', b', i);
      assert a[..i + 1] == [a[0]] + a'[..i];
      assert b[..i + 1] == [b[0]] + b'[..i];
      assert SmallerAt(a, b, i + 1);
    }
    if exists i :: SmallerAt(a, b, i) {
      var i :| SmallerAt(a, b, i);
      if i > 0 {
        assert a[0] == a[..i][0] && b[0] == b[..i][0];
        assert a'[..i - 1] == a[..i][1..] && b'[..i - 1] == b[..i][1..];
        assert SmallerAt(a', b', i - 1);
      }
    }
  }

  lemma {:induction false} LessIrreflexive(a: string)
    ensures !Less(a, a)
  {
    if a != [] {
      LessIrreflexive(a[1..]);
    }
  }

  lemma {:induction false} LessTransitive(a: string, b: string, c: string)
    requires Less(a, b) && Less(b, c)
    ensures Less(a, c)
  {
    if a != [] && a[0] == b[0] && b[0] == c[0] {
      LessTransitive(a[1..], b[1..], c[1..]);
    }
  }

  /** Two different strings are always ordered one way or the other. */
  lemma {:induction false} LessTotal(a: string, b: string)
    requires a != b
    ensures Less(a, b) || Less(b, a)
  {
    if a != [] && b != [] && a[0] == b[0] {
      assert a == [a[0]] + a[1..] && b == [b[0]] + b[1..];
      LessTotal(a[1..], b[1..]);
    }
  }

  /** Every string comes strictly before each later one. */
  ghost predicate StrictlySorted(xs: seq<string>)
  {
    forall i, j :: 0 <= i < j < |xs| ==> Less(xs[i], xs[j])
  }

  lemma LessAsymmetric(a: string, b: string)
    requires Less(a, b)
    ensures !Less(b, a)
  {
    if Less(b, a) {
      LessTransitive(a, b, a);
      LessIrreflexive(a);
    }
  }

  /** The first string of a strictly sorted list comes before every other one in it. */
  lemma HeadIsLeast(xs: seq<string>, y: string)
    requires StrictlySorted(xs) && y in xs && y != xs[0]
    ensures Less(xs[0], y)
  {
    var j :| 0 <= j < |xs| && xs[j] == y;
  }

  /** A strictly sorted list holds no string twice. */
  lemma SortedHasNoRepeats(xs: seq<string>)
    requires StrictlySorted(xs)
    ensures forall i, j :: 0 <= i < j < |xs| ==> xs[i] != xs[j]
  {
    forall i, j | 0 <= i < j < |xs| ensures xs[i] != xs[j] {
      LessIrreflexive(xs[i]);
    }
  }

  /** The tail of a strictly sorted list holds everything but its first string. */
  lemma TailMembers(xs: seq<string>)
    requires StrictlySorted(xs) && xs != []
    ensures forall y :: y in xs[1..] <==> y in xs && y != xs[0]
  {
    SortedHasNoRepeats(xs);
    forall y ensures y in xs[1..] <==> y in xs && y != xs[0] {
      if y in xs && y != xs[0] {
        var j :| 0 <= j < |xs| && xs[j] == y;
        assert xs[1..][j - 1] == y;
      }
      if y in xs[1..] {
        var j :| 0 <= j < |xs[1..]| && xs[1..][j] == y;
        assert xs[j + 1] == y;
      }
    }
  }

  /** `x` put into its place in a strictly sorted list (nothing changes if it is there already). */
  function Insert(x: string, xs: seq<string>): (r: seq<string>)
    requires StrictlySorted(xs)
    ensures StrictlySorted(r)
    ensures forall y :: y in r <==> y == x || y in xs
  {
    if xs == [] then [x]
    else if x == xs[0] then xs
    else if Less(x, xs[0]) then
      assert forall j :: 0 <= j < |xs| ==> Less(x, xs[j]) by {
        forall j | 0 <= j < |xs| ensures Less(x, xs[j]) {
          if j > 0 { LessTransitive(x, xs[0], xs[j]); }
        }
      }
      [x] + xs
    else
      LessTotal(x, xs[0]);
      var tail := Insert(x, xs[1..]);
      assert forall y :: y in tail ==> Less(xs[0], y) by {
        forall y | y in tail ensures Less(xs[0], y) {
          if y != x {
            var j :| 0 <= j < |xs[1..]| && xs[1..][j] == y;
            assert xs[j + 1] == y;
          }
        }
      }
      assert forall y :: y in xs <==> y == xs[0] || y in xs[1..] by {
        assert xs == [xs[0]] + xs[1..];
      }
      [xs[0]] + tail
  }

  /** `sorted(set(xs))`: the distinct strings of `xs`, in order. */
  function SortedDistinct(xs: seq<string>): (r: seq<string>)
    ensures StrictlySorted(r)
    ensures forall y :: y in r <==> y in xs
  {
    if xs == [] then []
    else
      var init := xs[..|xs| - 1];
      assert xs == init + [xs[|xs| - 1]];
      Insert(xs[|xs| - 1], SortedDistinct(init))
  }

  /**
   * Only one strictly sorted list holds a given set of strings: the sorted
   * list does not depend on the order in which the strings were met.
   */
  lemma {:induction false} SortedListIsUnique(a: seq<string>, b: seq<string>)
    requires StrictlySorted(a) && StrictlySorted(b)
    requires forall y :: y in a <==> y in b
    ensures a == b
  {
    if a != [] {
      assert a[0] in a;
    }
    if b != [] {
      assert b[0] in b;
    }
    if a != [] && b != [] {
      if a[0] != b[0] {
        HeadIsLeast(b, a[0]);
        HeadIsLeast(a, b[0]);
        LessAsymmetric(a[0], b[0]);
        assert false;
      }
      TailMembers(a);
      TailMembers(b);
      SortedListIsUnique(a[1..], b[1..]);
      assert a == [a[0]] + a[1..] && b == [b[0]] + b[1..];
    }
  }

  /** The label of every stop of every course, course by course. */
  function StopLabels(courses: seq<seq<string>>): (r: seq<string>)
    ensures forall y :: y in r <==> exists v, n :: v in courses && n in v && y == StopLabel(n)
  {
    var names := Flatten(courses);
    var r := seq(|names|, i requires 0 <= i < |names| => StopLabel(names[i]));
    assert forall y :: y in r <==> exists n :: n in names && y == StopLabel(n) by {
      forall y ensures y in r <==> exists n :: n in names && y == StopLabel(n) {
        if exists n :: n in names && y == StopLabel(n) {
          var n :| n in names && y == StopLabel(n);
          var i :| 0 <= i < |names| && names[i] == n;
          assert r[i] == y;
        }
      }
    }
    r
  }

  /**
   * The place list of the review tab: strictly sorted (hence free of
   * repeats), and holding exactly the labels of the course stops.
   */
  function PlaceNames(courses: seq<seq<string>>): (r: seq<string>)
    ensures StrictlySorted(r)
    ensures forall i, j :: 0 <= i < j < |r| ==> r[i] != r[j]
    ensures forall y :: y in r <==> exists v, n :: v in courses && n in v && y == StopLabel(n)
  {
    var r := SortedDistinct(StopLabels(courses));
    SortedHasNoRepeats(r);
    r
  }

  /**
   * Reordering the courses, or their stops, does not change the list: it
   * depends only on which labels occur.
   */
  lemma PlaceNamesIgnoreOrder(a: seq<seq<string>>, b: seq<seq<string>>)
    requires forall n :: n in Flatten(a) <==> n in Flatten(b)
    ensures PlaceNames(a) == PlaceNames(b)
  {
    forall y ensures y in PlaceNames(a) ==> y in PlaceNames(b) {
      SameLabels(a, b, y);
    }
    forall y ensures y in PlaceNames(b) ==> y in PlaceNames(a) {
      SameLabels(b, a, y);
    }
    SortedListIsUnique(PlaceNames(a), PlaceNames(b));
  }

  lemma SameLabels(a: seq<seq<string>>, b: seq<seq<string>>, y: string)
    requires forall n :: n in Flatten(a) <==> n in Flatten(b)
    ensures y in PlaceNames(a) ==> y in PlaceNames(b)
  {
    if y in PlaceNames(a) {
      var v, n :| v in a && n in v && y == StopLabel(n);
      assert n in Flatten(b);
    }
  }
}
