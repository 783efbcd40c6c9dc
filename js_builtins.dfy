/**
 The JavaScript String and Array operations the report routes are built from,
 with the meaning JavaScript gives them when the pattern is a plain string:
 `endsWith`, `indexOf`, `replace(pattern, '')`, `split` on a one-character
 separator, and the array methods `join`, `filter` and `map`.
 */
module JsBuiltins {
  import opened Wrappers

  /** `s.endsWith(suffix)`: the string is some prefix followed by `suffix`. */
  predicate EndsWith(s: string, suffix: string): (b: bool)
    ensures b <==> |suffix| <= |s| && s == s[..|s| - |suffix|] + suffix
  {
    |suffix| <= |s| && s[|s| - |suffix|..] == suffix
  }

  /** `pat` occurs in `s` starting at position `i`. */
  predicate OccursAt(s: string, pat: string, i: nat) {
    i + |pat| <= |s| && s[i..i + |pat|] == pat
  }

  /** `s.indexOf(pat, from)`, with None for JavaScript's -1: the first
      position at or after `from` where `pat` occurs, for `from <= |s|` or a
      non-empty pattern (JavaScript clamps a larger `from` to `|s|`). */
  function IndexOf(s: string, pat: string, from: nat): (r: Option<nat>)
    ensures r.Some? ==> from <= r.value && OccursAt(s, pat, r.value)
    ensures r.Some? ==> forall j: nat :: from <= j < r.value ==> !OccursAt(s, pat, j)
    ensures r.None? ==> forall j: nat :: from <= j ==> !OccursAt(s, pat, j)
    decreases |s| - from
  {
    if from + |pat| > |s| then None
    else if OccursAt(s, pat, from) then Some(from)
    else IndexOf(s, pat, from + 1)
  }

  /** `s.replace(pat, '')`: a string pattern is searched for once, so only
      its FIRST occurrence is removed, wherever in `s` that is. */
  function RemoveFirst(s: string, pat: string): (r: string)
    ensures (forall j: nat :: !OccursAt(s, pat, j)) ==> r == s
    ensures (exists j: nat :: OccursAt(s, pat, j)) ==> |r| + |pat| == |s|
    ensures forall i: nat :: OccursAt(s, pat, i) && (forall j: nat :: j < i ==> !OccursAt(s, pat, j)) ==>
      r == s[..i] + s[i + |pat|..]
  {
    match IndexOf(s, pat, 0)
    case None => s
    case Some(i) => s[..i] + s[i + |pat|..]
  }

  /** `s.split(sep)` for a one-character separator: the maximal runs between
      separators, empty runs included, so there is always at least one part
      and none contains the separator. */
  function Split(s: string, sep: char): (parts: seq<string>)
    ensures |parts| >= 1
    ensures |parts| == 1 <==> sep !in s
    ensures sep !in s ==> parts == [s]
    ensures forall k :: 0 <= k < |parts| ==> sep !in parts[k]
    ensures parts[0] <= s
    decreases |s|
  {
    match IndexOf(s, [sep], 0)
    case None =>
      assert forall j :: 0 <= j < |s| ==> s[j] != sep by {
        forall j | 0 <= j < |s| ensures s[j] != sep {
          assert !OccursAt(s, [sep], j);
          assert s[j..j + 1] == [s[j]];
        }
      }
      [s]
    case Some(i) =>
      assert s[i..i + 1] == [s[i]];
      assert sep !in s[..i] by {
        forall j | 0 <= j < i ensures s[..i][j] != sep {
          assert !OccursAt(s, [sep], j);
          assert s[j..j + 1] == [s[j]];
        }
      }
      [s[..i]] + Split(s[i + 1..], sep)
  }

  /** `parts.join(sep)`: an empty array joins to the empty string. */
  function Join(parts: seq<string>, sep: char): (r: string)
    ensures |parts| == 0 ==> r == ""
    ensures |parts| >= 1 ==> parts[0] <= r
    ensures |parts| >= 2 ==> parts[0] + [sep] <= r
    ensures (forall k :: 0 <= k < |parts| ==> sep !in parts[k]) ==> (sep in r <==> |parts| >= 2)
  {
    if |parts| == 0 then ""
    else if |parts| == 1 then parts[0]
    else parts[0] + [sep] + Join(parts[1..], sep)
  }

  /** Where a string with a separator splits first: at its first separator. */
  lemma SplitAt(s: string, sep: char) returns (i: nat)
    requires sep in s
    ensures i < |s| && s[i] == sep && sep !in s[..i]
    ensures s == s[..i] + [sep] + s[i + 1..]
    ensures Split(s, sep) == [s[..i]] + Split(s[i + 1..], sep)
  {
    match IndexOf(s, [sep], 0)
    case None =>
      var j :| 0 <= j < |s| && s[j] == sep;
      assert s[j..j + 1] == [s[j]];
      assert OccursAt(s, [sep], j);
      assert false;
    case Some(k) =>
      i := k;
      assert s[i..i + 1] == [s[i]];
      forall j | 0 <= j < i ensures s[..i][j] != sep {
        assert !OccursAt(s, [sep], j);
        assert s[j..j + 1] == [s[j]];
      }
      assert s == s[..i] + [sep] + s[i + 1..];
  }

  /** A split has one more part than the string has separators. */
  lemma {:induction false} SplitCount(s: string, sep: char)
    ensures |Split(s, sep)| == multiset(s)[sep] + 1
    decreases |s|
  {
    if sep in s {
      var i := SplitAt(s, sep);
      SplitCount(s[i + 1..], sep);
      assert multiset(s) == multiset(s[..i]) + multiset([sep]) + multiset(s[i + 1..]);
      assert multiset(s[..i])[sep] == 0;
    } else {
      assert multiset(s)[sep] == 0;
    }
  }

  /** Joining two or more parts puts the first two in front, separated. */
  lemma JoinFront(parts: seq<string>, sep: char)
    requires |parts| >= 2
    ensures |parts| == 2 ==> Join(parts, sep) == parts[0] + [sep] + parts[1]
    ensures |parts| >= 3 ==> Join(parts, sep) == parts[0] + [sep] + parts[1] + [sep] + Join(parts[2..], sep)
  {
    var a, b := parts[0], parts[1];
    assert parts[1..][0] == b;
    if |parts| >= 3 {
      var c := Join(parts[2..], sep);
      assert parts[1..][1..] == parts[2..];
      assert Join(parts[1..], sep) == b + [sep] + c;
      assert a + [sep] + (b + [sep] + c) == a + [sep] + b + [sep] + c;
    }
  }

  /** Splitting a string that starts with a separator-free part and a
      separator gives that part, then the split of the rest. */
  lemma SplitAfterFirst(head: string, sep: char, rest: string)
    requires sep !in head
    ensures Split(head + [sep] + rest, sep) == [head] + Split(rest, sep)
  {
    var s := head + [sep] + rest;
    assert OccursAt(s, [sep], |head|) by {
      assert s[|head|..|head| + 1] == [sep];
    }
    forall j: nat | j < |head| ensures !OccursAt(s, [sep], j) {
      assert s[j..j + 1] == [head[j]];
    }
    assert IndexOf(s, [sep], 0) == Some(|head|);
    assert s[..|head|] == head && s[|head| + 1..] == rest;
  }

  /** Two separator-free fields in front split off as the first two parts. */
  lemma SplitAfterTwo(first: string, second: string, rest: string, sep: char)
    requires sep !in first && sep !in second
    ensures Split(first + [sep] + second + [sep] + rest, sep) == [first, second] + Split(rest, sep)
  {
    var tail := second + [sep] + rest;
    assert first + [sep] + second + [sep] + rest == first + [sep] + tail;
    calc {
      Split(first + [sep] + tail, sep);
      { SplitAfterFirst(first, sep, tail); }
      [first] + Split(tail, sep);
      { SplitAfterFirst(second, sep, rest); }
      [first] + ([second] + Split(rest, sep));
      [first, second] + Split(rest, sep);
    }
  }

  /** Joining the parts of a split gives back the string. */
  lemma {:induction false} JoinSplit(s: string, sep: char)
    ensures Join(Split(s, sep), sep) == s
    decreases |s|
  {
    if sep in s {
      var i := SplitAt(s, sep);
      var tail := Split(s[i + 1..], sep);
      JoinSplit(s[i + 1..], sep);
      assert ([s[..i]] + tail)[1..] == tail;
    }
  }

  /** Splitting the join of separator-free parts gives back the parts. */
  lemma {:induction false} SplitJoin(parts: seq<string>, sep: char)
    requires |parts| >= 1
    requires forall k :: 0 <= k < |parts| ==> sep !in parts[k]
    ensures Split(Join(parts, sep), sep) == parts
    decreases |parts|
  {
    if |parts| >= 2 {
      var rest := Join(parts[1..], sep);
      assert Join(parts, sep) == parts[0] + [sep] + rest;
      SplitJoin(parts[1..], sep);
      SplitAfterFirst(parts[0], sep, rest);
      assert [parts[0]] + parts[1..] == parts;
    }
  }

  /** `xs.map(f)` where the callback may throw (None): the results in order,
      or None when the callback throws for some element, which aborts the
      whole map. */
  function MapOrThrow<T, U>(xs: seq<T>, f: T -> Option<U>): (ys: Option<seq<U>>)
    ensures ys.Some? <==> forall k :: 0 <= k < |xs| ==> f(xs[k]).Some?
    ensures ys.Some? ==> |ys.value| == |xs|
    ensures ys.Some? ==> forall k :: 0 <= k < |xs| ==> ys.value[k] == f(xs[k]).value
  {
    if |xs| == 0 then Some([])
    else match f(xs[0])
      case None => None
      case Some(y) =>
        var rest := MapOrThrow(xs[1..], f);
        if rest.Some? then Some([y] + rest.value) else None
  }

  /** `xs.filter(p)`: the elements satisfying `p`, in their original order. */
  function Filter<T>(xs: seq<T>, p: T -> bool): (ys: seq<T>)
    ensures |ys| <= |xs|
    ensures forall k :: 0 <= k < |ys| ==> p(ys[k])
  {
    if |xs| == 0 then []
    else (if p(xs[0]) then [xs[0]] else []) + Filter(xs[1..], p)
  }

  /** Filtering a concatenation filters each part in turn. */
  lemma {:induction false} FilterAppend<T>(a: seq<T>, b: seq<T>, p: T -> bool)
    ensures Filter(a + b, p) == Filter(a, p) + Filter(b, p)
    decreases |a|
  {
    if |a| > 0 {
      FilterAppend(a[1..], b, p);
      assert (a + b)[1..] == a[1..] + b;
    } else {
      assert a + b == b;
    }
  }

  /** Every element satisfying `p` is kept as often as it occurs, and no
      other element is kept. */
  lemma {:induction false} FilterCounts<T>(xs: seq<T>, p: T -> bool, x: T)
    ensures multiset(Filter(xs, p))[x] == if p(x) then multiset(xs)[x] else 0
    decreases |xs|
  {
    if |xs| > 0 {
      FilterCounts(xs[1..], p, x);
      assert xs == [xs[0]] + xs[1..];
    }
  }

  /** The positions in `xs` of the elements `Filter` keeps. */
  function FilterPositions<T>(xs: seq<T>, p: T -> bool): seq<nat> {
    if |xs| == 0 then []
    else (if p(xs[0]) then [0] else []) + Successors(FilterPositions(xs[1..], p))
  }

  /** Each position moved one place on. */
  function Successors(xs: seq<nat>): (ys: seq<nat>)
    ensures |ys| == |xs|
    ensures forall i :: 0 <= i < |xs| ==> ys[i] == xs[i] + 1
  {
    seq(|xs|, i requires 0 <= i < |xs| => xs[i] + 1)
  }

  /** There are as many positions as kept elements. */
  lemma {:induction false} FilterPositionsLength<T>(xs: seq<T>, p: T -> bool)
    ensures |FilterPositions(xs, p)| == |Filter(xs, p)|
    decreases |xs|
  {
    if |xs| > 0 {
      FilterPositionsLength(xs[1..], p);
    }
  }

  /** The kept elements are the elements at `FilterPositions`, one for one. */
  lemma {:induction false} FilterSelectsAtPositions<T>(xs: seq<T>, p: T -> bool)
    ensures |FilterPositions(xs, p)| == |Filter(xs, p)|
    ensures forall k :: 0 <= k < |Filter(xs, p)| ==>
      FilterPositions(xs, p)[k] < |xs| && xs[FilterPositions(xs, p)[k]] == Filter(xs, p)[k]
    decreases |xs|
  {
    FilterPositionsLength(xs, p);
    if |xs| > 0 {
      var tail, kept := FilterPositions(xs[1..], p), Filter(xs[1..], p);
      FilterSelectsAtPositions(xs[1..], p);
      var shifted := Successors(tail);
      var first: seq<nat> := if p(xs[0]) then [0] else [];
      var firstKept: seq<T> := if p(xs[0]) then [xs[0]] else [];
      var ix, ys := first + shifted, firstKept + kept;
      assert FilterPositions(xs, p) == ix && Filter(xs, p) == ys;
      forall k | 0 <= k < |ys| ensures ix[k] < |xs| && xs[ix[k]] == ys[k] {
        if k >= |first| {
          var m := k - |first|;
          assert ix[k] == shifted[m] == tail[m] + 1;
          assert ys[k] == kept[m];
          assert xs[tail[m] + 1] == xs[1..][tail[m]];
        }
      }
    }
  }

  /** Strictly increasing positions. */
  predicate Increasing(xs: seq<nat>) {
    forall k, l :: 0 <= k < l < |xs| ==> xs[k] < xs[l]
  }

  /** Moving increasing positions one place on keeps them increasing. */
  lemma SuccessorsIncrease(xs: seq<nat>)
    requires Increasing(xs)
    ensures Increasing(Successors(xs))
  {
  }

  /** Position 0 in front of positions that are all at least 1 keeps them
      increasing. */
  lemma ZeroBeforeSuccessors(xs: seq<nat>)
    requires Increasing(Successors(xs))
    ensures Increasing([0] + Successors(xs))
  {
    var ys := Successors(xs);
    var ix := [0] + ys;
    forall k, l | 0 <= k < l < |ix| ensures ix[k] < ix[l] {
      assert ix[l] == ys[l - 1];
      if k > 0 {
        assert ix[k] == ys[k - 1];
      }
    }
  }

  /** The positions are strictly increasing: the kept elements keep their order. */
  lemma {:induction false} FilterPositionsIncrease<T>(xs: seq<T>, p: T -> bool)
    ensures Increasing(FilterPositions(xs, p))
    decreases |xs|
  {
    if |xs| > 0 {
      var tail := FilterPositions(xs[1..], p);
      FilterPositionsIncrease(xs[1..], p);
      SuccessorsIncrease(tail);
      if p(xs[0]) {
        ZeroBeforeSuccessors(tail);
      }
      assert FilterPositions(xs, p) == (if p(xs[0]) then [0] else []) + Successors(tail);
    }
  }

  /** A number is among the successors exactly when its predecessor is among
      the originals. */
  lemma SuccessorsContain(xs: seq<nat>, j: nat)
    ensures j in Successors(xs) <==> j >= 1 && j - 1 in xs
  {
    var ys := Successors(xs);
    if j in ys {
      var k :| 0 <= k < |ys| && ys[k] == j;
      assert xs[k] == j - 1;
    }
    if j >= 1 && j - 1 in xs {
      var k :| 0 <= k < |xs| && xs[k] == j - 1;
      assert ys[k] == j;
    }
  }

  /** A position is among `FilterPositions` exactly when its element satisfies `p`. */
  lemma {:induction false} FilterPositionsExact<T>(xs: seq<T>, p: T -> bool)
    ensures forall j :: 0 <= j < |xs| ==> (p(xs[j]) <==> j in FilterPositions(xs, p))
    decreases |xs|
  {
    if |xs| > 0 {
      var tail := FilterPositions(xs[1..], p);
      FilterPositionsExact(xs[1..], p);
      var shifted := Successors(tail);
      var first: seq<nat> := if p(xs[0]) then [0] else [];
      assert FilterPositions(xs, p) == first + shifted;
      forall j | 0 <= j < |xs| ensures p(xs[j]) <==> j in first + shifted {
        SuccessorsContain(tail, j);
        if j > 0 {
          assert xs[j] == xs[1..][j - 1];
        }
      }
    }
  }
}
