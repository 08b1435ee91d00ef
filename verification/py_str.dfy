/**
 * The three pieces of Python string behaviour the checkpoint key rename uses:
 * the substring test `t in s`, the slice `s[n:]` and `s.replace(old, new)`.
 * Strings are sequences of characters.
 */
module PyStr {

  type Str = seq<char>

  /** `t` occurs in `s` starting at index `i`. */
  ghost predicate OccursAt(s: Str, t: Str, i: int)
  {
    0 <= i && i + |t| <= |s| && s[i..i + |t|] == t
  }

  /** Python's `t in s`: does `t` occur anywhere in `s`? */
  predicate Contains(s: Str, t: Str)
    decreases |s|
  {
    if |s| < |t| then false
    else s[..|t|] == t || Contains(s[1..], t)
  }

  /** The recursive scan agrees with the positional definition of an occurrence. */
  lemma {:induction false} ContainsIffOccurs(s: Str, t: Str)
    ensures Contains(s, t) <==> exists i :: OccursAt(s, t, i)
    decreases |s|
  {
    if |s| < |t| {
      forall i ensures !OccursAt(s, t, i) { }
    } else if s[..|t|] == t {
      assert OccursAt(s, t, 0);
    } else {
      ContainsIffOccurs(s[1..], t);
      if Contains(s[1..], t) {
        var i :| OccursAt(s[1..], t, i);
        assert s[i + 1..i + 1 + |t|] == s[1..][i..i + |t|];
        assert OccursAt(s, t, i + 1);
      } else {
        forall i | OccursAt(s, t, i) ensures false {
          if i > 0 {
            assert s[1..][i - 1..i - 1 + |t|] == s[i..i + |t|];
            assert OccursAt(s[1..], t, i - 1);
          }
        }
      }
    }
  }

  /** Python's slice `s[n:]`: everything from index `n` on, empty when `s` is shorter. */
  function Drop(s: Str, n: nat): (r: Str)
    ensures |r| == if |s| <= n then 0 else |s| - n
    ensures forall i :: 0 <= i < |r| ==> r[i] == s[n + i]
  {
    if |s| <= n then [] else s[n..]
  }

  /**
   * Python's `s.replace(pat, rep)` for a non-empty `pat`: the occurrences of
   * `pat` are found from left to right, each one resuming the search after the
   * previous one (so they never overlap), and each is replaced by `rep`.
   */
  function ReplaceAll(s: Str, pat: Str, rep: Str): (r: Str)
    requires pat != []
    ensures !Contains(s, pat) ==> r == s
    ensures |rep| <= |pat| ==> |r| <= |s|
    ensures |rep| < |pat| && Contains(s, pat) ==> |r| < |s|
    decreases |s|
  {
    if |s| < |pat| then s
    else if s[..|pat|] == pat then rep + ReplaceAll(s[|pat|..], pat, rep)
    else [s[0]] + ReplaceAll(s[1..], pat, rep)
  }

  /** A string lacking one of the characters of `t` cannot contain `t`. */
  lemma MissingCharNotContained(s: Str, t: Str, k: nat)
    requires k < |t| && t[k] !in s
    ensures !Contains(s, t)
  {
    ContainsIffOccurs(s, t);
  }

  /**
   * Replacement passes over a leading part that does not hold the first
   * character of the pattern: no occurrence can start there.
   */
  lemma {:induction false} ReplaceSkipsClean(a: Str, b: Str, pat: Str, rep: Str)
    requires pat != [] && pat[0] !in a
    ensures ReplaceAll(a + b, pat, rep) == a + ReplaceAll(b, pat, rep)
    decreases |a|
  {
    if a == [] {
      assert a + b == b;
    } else {
      var s := a + b;
      assert s[1..] == a[1..] + b;
      ReplaceSkipsClean(a[1..], b, pat, rep);
      if |s| >= |pat| {
        assert s[..|pat|][0] == a[0] != pat[0];
        assert a + ReplaceAll(b, pat, rep) == [a[0]] + (a[1..] + ReplaceAll(b, pat, rep));
      }
    }
  }

  /** An occurrence at the front is replaced, and the scan resumes after it. */
  lemma ReplaceAtFront(b: Str, pat: Str, rep: Str)
    requires pat != []
    ensures ReplaceAll(pat + b, pat, rep) == rep + ReplaceAll(b, pat, rep)
  {
    assert (pat + b)[..|pat|] == pat;
    assert (pat + b)[|pat|..] == b;
  }

  /** Python's `s.split(sep)` for a non-empty `sep`: the pieces between the occurrences. */
  function Split(s: Str, sep: Str): (pieces: seq<Str>)
    requires sep != []
    ensures |pieces| >= 1
    decreases |s|
  {
    if |s| < |sep| then [s]
    else if s[..|sep|] == sep then [[]] + Split(s[|sep|..], sep)
    else
      var rest := Split(s[1..], sep);
      [[s[0]] + rest[0]] + rest[1..]
  }

  /** Python's `sep.join(pieces)`. */
  function Join(pieces: seq<Str>, sep: Str): Str
    requires |pieces| >= 1
    decreases |pieces|
  {
    if |pieces| == 1 then pieces[0] else pieces[0] + sep + Join(pieces[1..], sep)
  }

  lemma JoinExtendFirst(c: char, pieces: seq<Str>, sep: Str)
    requires |pieces| >= 1
    ensures Join([[c] + pieces[0]] + pieces[1..], sep) == [c] + Join(pieces, sep)
  {
    var q := [[c] + pieces[0]] + pieces[1..];
    assert q[1..] == pieces[1..];
  }

  /** The first piece of a split is a prefix of the string. */
  lemma {:induction false} SplitFirstIsPrefix(s: Str, sep: Str)
    requires sep != []
    ensures |Split(s, sep)[0]| <= |s| && Split(s, sep)[0] == s[..|Split(s, sep)[0]|]
    decreases |s|
  {
    if |s| >= |sep| && s[..|sep|] != sep {
      SplitFirstIsPrefix(s[1..], sep);
    }
  }

  /** No piece of a split contains the separator. */
  lemma {:induction false} SplitPiecesFree(s: Str, sep: Str)
    requires sep != []
    ensures forall i :: 0 <= i < |Split(s, sep)| ==> !Contains(Split(s, sep)[i], sep)
    decreases |s|
  {
    if |s| < |sep| {
    } else if s[..|sep|] == sep {
      SplitPiecesFree(s[|sep|..], sep);
      assert !Contains([], sep);
    } else {
      var rest := Split(s[1..], sep);
      SplitPiecesFree(s[1..], sep);
      SplitFirstIsPrefix(s[1..], sep);
      var head := [s[0]] + rest[0];
      assert head == s[..|head|];
      assert head[1..] == rest[0];
      if |head| >= |sep| {
        assert head[..|sep|] == s[..|sep|];
      }
      assert !Contains(head, sep);
    }
  }

  /**
   * Replacement is splitting at `pat` and joining with `rep`: the string falls
   * into pieces free of `pat`, and the pieces come back in order, separated by `rep`.
   */
  lemma {:induction false} ReplaceIsSplitJoin(s: Str, pat: Str, rep: Str)
    requires pat != []
    ensures ReplaceAll(s, pat, rep) == Join(Split(s, pat), rep)
    decreases |s|
  {
    if |s| < |pat| {
    } else if s[..|pat|] == pat {
      ReplaceIsSplitJoin(s[|pat|..], pat, rep);
      var q := [[]] + Split(s[|pat|..], pat);
      assert q[1..] == Split(s[|pat|..], pat);
    } else {
      ReplaceIsSplitJoin(s[1..], pat, rep);
      JoinExtendFirst(s[0], Split(s[1..], pat), rep);
    }
  }

  /** Replacing a pattern by itself leaves every string as it was. */
  lemma {:induction false} ReplaceBySelf(s: Str, t: Str)
    requires t != []
    ensures ReplaceAll(s, t, t) == s
    decreases |s|
  {
    if |s| < |t| {
    } else if s[..|t|] == t {
      ReplaceBySelf(s[|t|..], t);
      assert s == s[..|t|] + s[|t|..];
    } else {
      ReplaceBySelf(s[1..], t);
      assert s == [s[0]] + s[1..];
    }
  }

  /** Joining the pieces of a split with the separator gives back the string. */
  lemma SplitJoinRoundTrip(s: Str, sep: Str)
    requires sep != []
    ensures Join(Split(s, sep), sep) == s
  {
    ReplaceIsSplitJoin(s, sep, sep);
    ReplaceBySelf(s, sep);
  }
}
