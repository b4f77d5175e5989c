/**
 The two .NET string operations the parameter binder relies on:
 `String.Replace(oldValue, newValue)` (ordinal, left-to-right, non-overlapping
 replacement of every occurrence) and `string.Join(separator, values)`.

 `ReplaceAll` follows the scan that `String.Replace` performs. Its meaning is
 given independently by `SplitOn`, which cuts a text into the pieces that lie
 between the greedy left-to-right occurrences of a pattern: replacing is
 splitting on the pattern and joining the pieces back with the replacement.
 */
module Text {

  /** `pat` occurs in `s` starting at index `i`. */
  predicate OccursAt(s: string, pat: string, i: nat) {
    i + |pat| <= |s| && s[i..i + |pat|] == pat
  }

  /** `pat` occurs somewhere in `s`: what `String.Contains` answers. */
  predicate Contains(s: string, pat: string) {
    exists i: nat | i <= |s| :: OccursAt(s, pat, i)
  }

  /** `string.Join(sep, xs)`: the elements of `xs` with `sep` between neighbours. */
  function Join(sep: string, xs: seq<string>): string {
    if |xs| == 0 then ""
    else if |xs| == 1 then xs[0]
    else xs[0] + sep + Join(sep, xs[1..])
  }

  /**
   `String.Replace(pat, rep)` on `s`, with ordinal comparison. .NET throws on an
   empty `pat`; every caller here passes a placeholder of at least one character.
   */
  function ReplaceAll(s: string, pat: string, rep: string): (r: string)
    requires pat != []
    ensures |s| < |pat| ==> r == s
    ensures rep == pat ==> r == s
    decreases |s|
  {
    if |s| < |pat| then s
    else if s[..|pat|] == pat then rep + ReplaceAll(s[|pat|..], pat, rep)
    else [s[0]] + ReplaceAll(s[1..], pat, rep)
  }

  /**
   No occurrence of `pat` begins inside `seg` when `seg` is followed by `tail`.
   */
  predicate NoEarlyMatch(seg: string, tail: string, pat: string) {
    forall i: nat :: i < |seg| ==> !OccursAt(seg + tail, pat, i)
  }

  /** What follows piece `j` of a split: the pattern, except after the last piece. */
  function Follower(segs: seq<string>, pat: string, j: nat): string {
    if j + 1 < |segs| then pat else ""
  }

  /**
   `segs` are the pieces a left-to-right, non-overlapping scan for `pat` leaves
   between occurrences: no occurrence starts inside any piece, so the
   occurrences between the pieces are exactly the ones the scan finds.
   */
  predicate Greedy(segs: seq<string>, pat: string) {
    |segs| >= 1 &&
    forall j: nat :: j < |segs| ==> NoEarlyMatch(segs[j], Follower(segs, pat, j), pat)
  }

  /**
   The greedy split of `s` on `pat`: joining the pieces with `pat` gives `s` back,
   and no occurrence of `pat` starts inside a piece.
   */
  function SplitOn(s: string, pat: string): (segs: seq<string>)
    requires pat != []
    ensures Greedy(segs, pat)
    ensures Join(pat, segs) == s
    decreases |s|
  {
    if |s| < |pat| then
      assert NoEarlyMatch(s, "", pat) by {
        forall i: nat | i < |s| ensures !OccursAt(s + "", pat, i) { }
      }
      [s]
    else if s[..|pat|] == pat then
      var rest := SplitOn(s[|pat|..], pat);
      GreedyConsEmpty(rest, pat);
      JoinConsEmpty(pat, rest);
      [""] + rest
    else
      var rest := SplitOn(s[1..], pat);
      GreedyConsChar(s, rest, pat);
      JoinConsChar(pat, s[0], rest);
      [[s[0]] + rest[0]] + rest[1..]
  }

  /** Number of occurrences `String.Replace` rewrites. */
  function Occurrences(s: string, pat: string): nat
    requires pat != []
  {
    |SplitOn(s, pat)| - 1
  }

  // ---------------------------------------------------------------------------
  // Helper facts about Join, OccursAt and Greedy
  // ---------------------------------------------------------------------------

  lemma JoinConsEmpty(sep: string, rest: seq<string>)
    requires |rest| >= 1
    ensures Join(sep, [""] + rest) == sep + Join(sep, rest)
  {
    assert ([""] + rest)[1..] == rest;
  }

  lemma JoinConsChar(sep: string, c: char, rest: seq<string>)
    requires |rest| >= 1
    ensures Join(sep, [[c] + rest[0]] + rest[1..]) == [c] + Join(sep, rest)
  {
    var xs := [[c] + rest[0]] + rest[1..];
    if |rest| > 1 {
      assert xs[1..] == rest[1..];
    }
  }

  /** Joining two elements puts one separator between them. */
  lemma JoinPair(sep: string, a: string, b: string)
    ensures Join(sep, [a, b]) == a + sep + b
  {
    assert [a, b][1..] == [b];
  }

  /** Joining `x` in front of a non-empty list puts `x + sep` in front. */
  lemma JoinCons(sep: string, x: string, rest: seq<string>)
    requires |rest| >= 1
    ensures Join(sep, [x] + rest) == x + sep + Join(sep, rest)
  {
    assert ([x] + rest)[1..] == rest;
  }

  lemma OccursAtShift(t: string, pat: string, i: nat)
    requires |t| >= 1
    ensures OccursAt(t[1..], pat, i) <==> OccursAt(t, pat, i + 1)
  {
    if i + 1 + |pat| <= |t| {
      assert t[1..][i..i + |pat|] == t[i + 1..i + 1 + |pat|];
    }
  }

  /** An occurrence inside a prefix of `t` is an occurrence in `t`, and back. */
  lemma OccursAtPrefix(t: string, u: string, pat: string, i: nat)
    requires i + |pat| <= |t|
    ensures OccursAt(t + u, pat, i) <==> OccursAt(t, pat, i)
  {
    assert (t + u)[i..i + |pat|] == t[i..i + |pat|];
  }

  lemma GreedyConsEmpty(rest: seq<string>, pat: string)
    requires Greedy(rest, pat)
    ensures Greedy([""] + rest, pat)
  {
    var segs := [""] + rest;
    forall j: nat | j < |segs| ensures NoEarlyMatch(segs[j], Follower(segs, pat, j), pat) {
      if j > 0 {
        assert segs[j] == rest[j - 1];
        assert Follower(segs, pat, j) == Follower(rest, pat, j - 1);
      }
    }
  }

  lemma GreedyConsChar(s: string, rest: seq<string>, pat: string)
    requires pat != [] && |s| >= |pat| && s[..|pat|] != pat
    requires Greedy(rest, pat) && Join(pat, rest) == s[1..]
    ensures Greedy([[s[0]] + rest[0]] + rest[1..], pat)
  {
    var segs := [[s[0]] + rest[0]] + rest[1..];
    forall j: nat | j < |segs| ensures NoEarlyMatch(segs[j], Follower(segs, pat, j), pat) {
      var tail := Follower(rest, pat, j);
      assert Follower(segs, pat, j) == tail;
      if j == 0 {
        FirstPieceIsPrefix(s, rest, pat);
        NoEarlyMatchCons(s[0], rest[0], tail, pat, s);
      } else {
        assert segs[j] == rest[j];
      }
    }
  }

  /** The first piece of a split of `s[1..]`, with `s[0]` before it and its follower after it, begins `s`. */
  lemma FirstPieceIsPrefix(s: string, rest: seq<string>, pat: string)
    requires |s| >= 1 && |rest| >= 1 && Join(pat, rest) == s[1..]
    ensures [s[0]] + rest[0] + Follower(rest, pat, 0) <= s
  {
    var tail := Follower(rest, pat, 0);
    assert s == [s[0]] + s[1..];
    if |rest| == 1 {
      assert [s[0]] + rest[0] + tail == s;
    } else {
      JoinCons(pat, rest[0], rest[1..]);
      assert rest == [rest[0]] + rest[1..];
      assert s == ([s[0]] + rest[0] + tail) + Join(pat, rest[1..]);
    }
  }

  /**
   Putting a character in front of a piece keeps it free of early matches, when
   the extended piece and its follower are a prefix of a text that does not
   start with the pattern.
   */
  lemma NoEarlyMatchCons(c: char, seg: string, tail: string, pat: string, s: string)
    requires NoEarlyMatch(seg, tail, pat)
    requires |s| >= |pat| && s[..|pat|] != pat
    requires [c] + seg + tail <= s
    ensures NoEarlyMatch([c] + seg, tail, pat)
  {
    var t := [c] + seg + tail;
    assert ([c] + seg) + tail == t;
    assert t[1..] == seg + tail;
    forall i: nat | i < |[c] + seg| ensures !OccursAt(t, pat, i) {
      if i > 0 {
        OccursAtShift(t, pat, i - 1);
      }
    }
  }

  /** Dropping the first character of the first piece keeps a split greedy. */
  lemma GreedyTailChar(segs: seq<string>, pat: string)
    requires Greedy(segs, pat) && segs[0] != []
    ensures Greedy([segs[0][1..]] + segs[1..], pat)
  {
    var segs' := [segs[0][1..]] + segs[1..];
    forall j: nat | j < |segs'| ensures NoEarlyMatch(segs'[j], Follower(segs', pat, j), pat) {
      var tail := Follower(segs, pat, j);
      assert Follower(segs', pat, j) == tail;
      if j == 0 {
        var t := segs[0] + tail;
        assert t[1..] == segs'[0] + tail;
        forall i: nat | i < |segs'[0]| ensures !OccursAt(segs'[0] + tail, pat, i) {
          OccursAtShift(t, pat, i);
        }
      } else {
        assert segs'[j] == segs[j];
      }
    }
  }

  /** A split whose pieces are each followed by the pattern has the pattern between its pieces. */
  lemma OccursAfterFirstPiece(segs: seq<string>, pat: string)
    requires |segs| >= 2
    ensures OccursAt(Join(pat, segs), pat, |segs[0]|)
  {
    var s := Join(pat, segs);
    assert s == segs[0] + pat + Join(pat, segs[1..]);
    assert s[|segs[0]|..|segs[0]| + |pat|] == pat;
  }

  /** If the first character of `pat` is not in `seg`, no occurrence of `pat` starts in `seg`. */
  lemma SigilFreeHasNoEarlyMatch(seg: string, tail: string, pat: string)
    requires pat != [] && pat[0] !in seg
    ensures NoEarlyMatch(seg, tail, pat)
  {
    forall i: nat | i < |seg| ensures !OccursAt(seg + tail, pat, i) {
      assert (seg + tail)[i] == seg[i];
    }
  }

  // ---------------------------------------------------------------------------
  // What String.Replace does
  // ---------------------------------------------------------------------------

  /**
   Nothing but the occurrences changes: `String.Replace` yields the greedy pieces
   of `s`, in order and unchanged, with `rep` where each occurrence of `pat` was.
   */
  lemma {:induction false} ReplaceAllIsJoinOfSplit(s: string, pat: string, rep: string)
    requires pat != []
    ensures ReplaceAll(s, pat, rep) == Join(rep, SplitOn(s, pat))
    decreases |s|
  {
    if |s| < |pat| {
    } else if s[..|pat|] == pat {
      ReplaceAllIsJoinOfSplit(s[|pat|..], pat, rep);
      JoinConsEmpty(rep, SplitOn(s[|pat|..], pat));
    } else {
      ReplaceAllIsJoinOfSplit(s[1..], pat, rep);
      JoinConsChar(rep, s[0], SplitOn(s[1..], pat));
    }
  }

  /**
   The greedy split is unique: any list of pieces that joins back to `s` and lets
   no occurrence start inside a piece is the one `SplitOn` computes. With
   `SplitOn`'s own postconditions this is the round trip between splitting and
   joining in both directions.
   */
  lemma {:induction false} SplitOnUnique(s: string, pat: string, segs: seq<string>)
    requires pat != []
    requires Greedy(segs, pat) && Join(pat, segs) == s
    ensures SplitOn(s, pat) == segs
    decreases |s|
  {
    if |segs| >= 2 {
      OccursAfterFirstPiece(segs, pat);
    }
    if |s| < |pat| {
      // no room for an occurrence, so there is one piece and it is s
    } else if segs[0] == [] {
      if |segs| >= 2 {
        JoinCons(pat, segs[0], segs[1..]);
        assert segs == [segs[0]] + segs[1..];
        assert s == pat + Join(pat, segs[1..]);
        assert s[..|pat|] == pat;
        assert s[|pat|..] == Join(pat, segs[1..]);
        var rest := segs[1..];
        assert Greedy(rest, pat) by {
          forall j: nat | j < |rest| ensures NoEarlyMatch(rest[j], Follower(rest, pat, j), pat) {
            assert rest[j] == segs[j + 1];
            assert Follower(rest, pat, j) == Follower(segs, pat, j + 1);
          }
        }
        SplitOnUnique(s[|pat|..], pat, rest);
      }
    } else {
      var tail := Follower(segs, pat, 0);
      assert !OccursAt(segs[0] + tail, pat, 0);
      var s1 := [segs[0][1..]] + segs[1..];
      if |segs| == 1 {
        assert s == segs[0];
        assert s + "" == s;
        assert s[..|pat|] != pat;
        assert Join(pat, s1) == s[1..];
      } else {
        JoinCons(pat, segs[0], segs[1..]);
        assert segs == [segs[0]] + segs[1..];
        assert s == (segs[0] + pat) + Join(pat, segs[1..]);
        OccursAtPrefix(segs[0] + pat, Join(pat, segs[1..]), pat, 0);
        assert s[..|pat|] != pat;
        JoinCons(pat, segs[0][1..], segs[1..]);
        assert s[1..] == segs[0][1..] + pat + Join(pat, segs[1..]);
      }
      GreedyTailChar(segs, pat);
      SplitOnUnique(s[1..], pat, s1);
      assert segs[0] == [s[0]] + segs[0][1..];
      assert segs == [[s[0]] + s1[0]] + s1[1..];
    }
  }

  /** `pat` occurs in `s` exactly when the split of `s` has more than one piece. */
  lemma ContainsIffSplits(s: string, pat: string)
    requires pat != []
    ensures Contains(s, pat) <==> Occurrences(s, pat) > 0
  {
    var segs := SplitOn(s, pat);
    if |segs| >= 2 {
      OccursAfterFirstPiece(segs, pat);
    } else {
      assert segs == [s];
      assert Follower(segs, pat, 0) == "";
      assert s + "" == s;
    }
  }

  /** A join begins with its first element and ends with its last. */
  lemma {:induction false} JoinEnds(sep: string, xs: seq<string>)
    ensures |xs| > 0 ==> xs[0] <= Join(sep, xs)
    ensures |xs| > 0 ==> var last, r := xs[|xs| - 1], Join(sep, xs);
      |last| <= |r| && r[|r| - |last|..] == last
    decreases |xs|
  {
    if |xs| > 1 {
      JoinEnds(sep, xs[1..]);
      var last, r, t := xs[|xs| - 1], Join(sep, xs), Join(sep, xs[1..]);
      assert r == (xs[0] + sep) + t;
      assert xs[1..][|xs[1..]| - 1] == last;
      assert r[|r| - |last|..] == t[|t| - |last|..];
    }
  }

  /** The length of a join: the pieces plus one separator between each two. */
  lemma {:induction false} JoinLength(sep: string, xs: seq<string>)
    ensures |Join(sep, xs)| == |Join("", xs)| + (if |xs| == 0 then 0 else (|xs| - 1) * |sep|)
    decreases |xs|
  {
    if |xs| > 1 {
      JoinLength(sep, xs[1..]);
    }
  }

  /**
   `String.Replace` changes the length by the difference between `rep` and `pat`
   once per rewritten occurrence.
   */
  lemma ReplaceAllLength(s: string, pat: string, rep: string)
    requires pat != []
    ensures |ReplaceAll(s, pat, rep)| == |s| + Occurrences(s, pat) * (|rep| - |pat|)
  {
    var segs := SplitOn(s, pat);
    var n, pieces := |segs| - 1, |Join("", segs)|;
    ReplaceAllIsJoinOfSplit(s, pat, rep);
    JoinLength(rep, segs);
    JoinLength(pat, segs);
    assert |ReplaceAll(s, pat, rep)| == pieces + n * |rep|;
    assert |s| == pieces + n * |pat|;
    assert n * (|rep| - |pat|) == n * |rep| - n * |pat|;
  }

  /** Replacing with the empty text deletes each occurrence and keeps the pieces. */
  lemma ReplaceAllDeletes(s: string, pat: string)
    requires pat != []
    ensures ReplaceAll(s, pat, "") == Join("", SplitOn(s, pat))
    ensures |ReplaceAll(s, pat, "")| == |s| - Occurrences(s, pat) * |pat|
  {
    var segs := SplitOn(s, pat);
    ReplaceAllIsJoinOfSplit(s, pat, "");
    JoinLength(pat, segs);
  }

  /**
   `String.Replace` returns its input exactly when there is nothing to replace or
   the replacement equals the pattern.
   */
  lemma ReplaceAllUnchangedIff(s: string, pat: string, rep: string)
    requires pat != []
    ensures ReplaceAll(s, pat, rep) == s <==> !Contains(s, pat) || rep == pat
  {
    ContainsIffSplits(s, pat);
    if !Contains(s, pat) || rep == pat {
      ReplaceAllIsJoinOfSplit(s, pat, rep);
    } else {
      ReplaceAllChanges(s, pat, rep);
    }
  }

  /** Rewriting at least one occurrence with a different text changes the text. */
  lemma ReplaceAllChanges(s: string, pat: string, rep: string)
    requires pat != [] && Occurrences(s, pat) > 0 && rep != pat
    ensures ReplaceAll(s, pat, rep) != s
  {
    if |rep| == |pat| {
      ReplaceAllIsJoinOfSplit(s, pat, rep);
      JoinedDiffers(SplitOn(s, pat), pat, rep);
    } else {
      ReplaceAllLength(s, pat, rep);
      ProductNonZero(Occurrences(s, pat), |rep| - |pat|);
    }
  }

  lemma ProductNonZero(n: int, d: int)
    requires n >= 1 && d != 0
    ensures n * d != 0
  {
    if d > 0 {
      assert n * d >= d;
    } else {
      assert n * d <= d;
    }
  }

  /** Joining with two different separators of one length gives different texts. */
  lemma JoinedDiffers(segs: seq<string>, pat: string, rep: string)
    requires |segs| >= 2 && |rep| == |pat| && rep != pat
    ensures Join(rep, segs) != Join(pat, segs)
  {
    var k := |segs[0]|;
    var a, b := Join(rep, segs), Join(pat, segs);
    assert a == segs[0] + rep + Join(rep, segs[1..]);
    assert b == segs[0] + pat + Join(pat, segs[1..]);
    assert a[k..k + |rep|] == rep;
    assert b[k..k + |pat|] == pat;
  }

  /** Text that cannot start an occurrence of `pat` passes through untouched. */
  lemma {:induction false} ReplaceAllSkipsSigilFree(p: string, s: string, pat: string, rep: string)
    requires pat != [] && pat[0] !in p
    ensures ReplaceAll(p + s, pat, rep) == p + ReplaceAll(s, pat, rep)
    decreases |p|
  {
    if p != [] {
      var t := p + s;
      assert t[0] == p[0];
      assert t[1..] == p[1..] + s;
      if |t| >= |pat| {
        assert t[..|pat|][0] == p[0];
      }
      ReplaceAllSkipsSigilFree(p[1..], s, pat, rep);
      assert p == [p[0]] + p[1..];
    } else {
      assert p + s == s;
    }
  }

  /** A text free of the first character of `pat` is left as it is. */
  lemma ReplaceAllSigilFree(p: string, pat: string, rep: string)
    requires pat != [] && pat[0] !in p
    ensures ReplaceAll(p, pat, rep) == p
  {
    ReplaceAllSkipsSigilFree(p, "", pat, rep);
    assert p + "" == p;
  }

  /** The first occurrence after a text free of `pat`'s first character is rewritten. */
  lemma ReplaceAllFirstAfter(p: string, s: string, pat: string, rep: string)
    requires pat != [] && pat[0] !in p
    ensures ReplaceAll(p + pat + s, pat, rep) == p + rep + ReplaceAll(s, pat, rep)
  {
    ReplaceAllSkipsSigilFree(p, pat + s, pat, rep);
    assert p + pat + s == p + (pat + s);
    assert (pat + s)[..|pat|] == pat;
    assert (pat + s)[|pat|..] == s;
  }

  /** A text containing no occurrence of `pat` is left as it is. */
  lemma ReplaceAllAbsent(s: string, pat: string, rep: string)
    requires pat != [] && !Contains(s, pat)
    ensures ReplaceAll(s, pat, rep) == s
  {
    ReplaceAllUnchangedIff(s, pat, rep);
  }
}
