/**
 * Python's `str.split(sep)`, `sep.join(parts)` and `str.count(sub)` for a
 * non-empty separator: occurrences are found left to right and do not
 * overlap, and empty parts are kept.
 */
module StrSplit {

  /** `d` occurs in `s` starting at position `k`. */
  predicate OccursAt(s: string, d: string, k: int)
  {
    0 <= k && k + |d| <= |s| && s[k..k + |d|] == d
  }

  /** `d` occurs somewhere in `s`. */
  predicate Contains(s: string, d: string)
  {
    exists k :: 0 <= k <= |s| - |d| && OccursAt(s, d, k)
  }

  /**
   * `s.split(d)`: the pieces of `s` between the leftmost non-overlapping
   * occurrences of `d`. There is always at least one piece, and the first is
   * a prefix of `s`.
   */
  function Split(s: string, d: string): (parts: seq<string>)
    requires |d| > 0
    ensures |parts| >= 1
    ensures parts[0] <= s
    decreases |s|
  {
    if |s| < |d| then [s]
    else if s[..|d|] == d then [""] + Split(s[|d|..], d)
    else
      var rest := Split(s[1..], d);
      [[s[0]] + rest[0]] + rest[1..]
  }

  /** `d.join(parts)`. */
  function Join(parts: seq<string>, d: string): string
    requires |parts| >= 1
    decreases |parts|
  {
    if |parts| == 1 then parts[0] else parts[0] + d + Join(parts[1..], d)
  }

  /** `s.count(d)`: the number of leftmost non-overlapping occurrences of `d` in `s`. */
  function Count(s: string, d: string): nat
    requires |d| > 0
    decreases |s|
  {
    if |s| < |d| then 0
    else if s[..|d|] == d then 1 + Count(s[|d|..], d)
    else Count(s[1..], d)
  }

  /** Prepending a character to the first piece prepends it to the joined string. */
  lemma {:induction false} JoinConsFirst(c: char, parts: seq<string>, d: string)
    requires |parts| >= 1
    ensures Join([[c] + parts[0]] + parts[1..], d) == [c] + Join(parts, d)
  {
  }

  /** Joining a piece in front of at least one more piece puts the separator between them. */
  lemma JoinCons(p: string, parts: seq<string>, d: string)
    requires |parts| >= 1
    ensures Join([p] + parts, d) == p + d + Join(parts, d)
  {
    assert ([p] + parts)[1..] == parts;
  }

  /** Joining the pieces of a split with the separator gives back the original string. */
  lemma {:induction false} JoinSplit(s: string, d: string)
    requires |d| > 0
    ensures Join(Split(s, d), d) == s
    decreases |s|
  {
    if |s| < |d| {
    } else if s[..|d|] == d {
      var rest := Split(s[|d|..], d);
      assert Split(s, d) == [""] + rest;
      JoinSplit(s[|d|..], d);
      JoinCons("", rest, d);
      assert s == d + s[|d|..];
    } else {
      var rest := Split(s[1..], d);
      assert Split(s, d) == [[s[0]] + rest[0]] + rest[1..];
      JoinSplit(s[1..], d);
      JoinConsFirst(s[0], rest, d);
      assert s == [s[0]] + s[1..];
    }
  }

  /** A string of at least |d| characters holding no `d` does not start with `d`. */
  lemma NotContainsHead(s: string, d: string)
    requires |d| <= |s| && !Contains(s, d)
    ensures s[..|d|] != d
  {
    assert !OccursAt(s, d, 0);
  }

  /** Adding one character in front of a `d`-free prefix of `s` keeps it `d`-free when `s` does not start with `d`. */
  lemma ConsPrefixFree(s: string, p: string, d: string)
    requires |d| > 0 && 1 <= |s| && p <= s[1..] && !Contains(p, d)
    requires |s| >= |d| ==> s[..|d|] != d
    ensures !Contains([s[0]] + p, d)
  {
    var q := [s[0]] + p;
    assert q <= s;
    forall k | OccursAt(q, d, k)
      ensures false
    {
      if k > 0 {
        assert q[k..k + |d|] == p[k - 1..k - 1 + |d|];
        assert OccursAt(p, d, k - 1);
      }
    }
  }

  /** No piece of a split contains the separator. */
  lemma {:induction false} SplitPiecesFree(s: string, d: string)
    requires |d| > 0
    ensures forall i :: 0 <= i < |Split(s, d)| ==> !Contains(Split(s, d)[i], d)
    decreases |s|
  {
    var parts := Split(s, d);
    if |s| < |d| {
      forall k | OccursAt(s, d, k) ensures false { }
    } else if s[..|d|] == d {
      SplitPiecesFree(s[|d|..], d);
      var rest := Split(s[|d|..], d);
      assert parts == [""] + rest;
      forall i | 0 <= i < |parts| ensures !Contains(parts[i], d) {
        if i == 0 {
          forall k | OccursAt("", d, k) ensures false { }
        } else {
          assert parts[i] == rest[i - 1];
        }
      }
    } else {
      SplitPiecesFree(s[1..], d);
      var rest := Split(s[1..], d);
      assert parts == [[s[0]] + rest[0]] + rest[1..];
      ConsPrefixFree(s, rest[0], d);
      forall i | 0 <= i < |parts| ensures !Contains(parts[i], d) {
        if i > 0 {
          assert parts[i] == rest[i];
        }
      }
    }
  }

  /** A split has exactly one more piece than the string has occurrences of the separator. */
  lemma {:induction false} SplitLength(s: string, d: string)
    requires |d| > 0
    ensures |Split(s, d)| == Count(s, d) + 1
    decreases |s|
  {
    if |s| < |d| {
    } else if s[..|d|] == d {
      SplitLength(s[|d|..], d);
    } else {
      SplitLength(s[1..], d);
    }
  }

  /** Splitting a string that holds no separator yields the string itself as the only piece. */
  lemma {:induction false} SplitFree(s: string, d: string)
    requires |d| > 0 && !Contains(s, d)
    ensures Split(s, d) == [s]
    decreases |s|
  {
    if |s| >= |d| {
      NotContainsHead(s, d);
      forall k | OccursAt(s[1..], d, k) ensures false {
        assert s[1..][k..k + |d|] == s[k + 1..k + 1 + |d|];
        assert OccursAt(s, d, k + 1);
      }
      SplitFree(s[1..], d);
      assert s == [s[0]] + s[1..];
    }
  }

  /** A split yields a single piece exactly when the separator does not occur. */
  lemma SplitSingleIff(s: string, d: string)
    requires |d| > 0
    ensures |Split(s, d)| == 1 <==> !Contains(s, d)
  {
    if !Contains(s, d) {
      SplitFree(s, d);
    } else {
      JoinSplit(s, d);
      SplitPiecesFree(s, d);
    }
  }

  /**
   * The first piece ends at the leftmost occurrence of the separator: when
   * `d` occurs in `p + d + rest` nowhere before position |p|, the split is
   * `p` followed by the split of `rest`.
   */
  lemma {:induction false} SplitAtLeftmost(p: string, d: string, rest: string)
    requires |d| > 0
    requires forall k :: 0 <= k < |p| ==> !OccursAt(p + d + rest, d, k)
    ensures Split(p + d + rest, d) == [p] + Split(rest, d)
    decreases |p|
  {
    var s := p + d + rest;
    if p == [] {
      assert s[..|d|] == d;
      assert s[|d|..] == rest;
    } else {
      assert !OccursAt(s, d, 0);
      var s' := p[1..] + d + rest;
      assert s[1..] == s';
      forall k | 0 <= k < |p[1..]| ensures !OccursAt(s', d, k) {
        assert s'[k..k + |d|] == s[k + 1..k + 1 + |d|];
        assert !OccursAt(s, d, k + 1);
      }
      SplitAtLeftmost(p[1..], d, rest);
      assert [s[0]] + p[1..] == p;
    }
  }
}
