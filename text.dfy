/** The JavaScript string operations that make-doc.js relies on, stated over
    `seq<char>`: `includes`, `startsWith`, `replace` with a string pattern
    (first occurrence only), `replace` with a literal `/…/ig` regular
    expression (every occurrence, ASCII case-insensitive) and `join`. */
module Text {

  datatype Option<T> = None | Some(value: T)

  // ---------------------------------------------------------------------------
  // Exact occurrences: includes, startsWith, indexOf, replace(string, string)
  // ---------------------------------------------------------------------------

  /** `pat` occurs in `s` starting at index `i`. */
  predicate OccursAt(s: string, pat: string, i: int)
  {
    0 <= i && i + |pat| <= |s| && s[i..i + |pat|] == pat
  }

  /** `s.startsWith(p)`. */
  predicate StartsWith(s: string, p: string)
  {
    |p| <= |s| && s[..|p|] == p
  }

  lemma OccursShift(s: string, pat: string, j: int)
    requires |s| > 0 && 1 <= j
    ensures OccursAt(s, pat, j) <==> OccursAt(s[1..], pat, j - 1)
  {
    if j + |pat| <= |s| {
      assert s[1..][j - 1..j - 1 + |pat|] == s[j..j + |pat|];
    }
  }

  /** `s.indexOf(pat)`: the first index at which `pat` occurs, if any. */
  function IndexOf(s: string, pat: string): (r: Option<nat>)
    ensures r.Some? ==> OccursAt(s, pat, r.value)
    ensures r.Some? ==> forall j :: 0 <= j < r.value ==> !OccursAt(s, pat, j)
    ensures r.None? <==> forall j :: !OccursAt(s, pat, j)
    decreases |s|
  {
    if StartsWith(s, pat) then
      assert s[0..|pat|] == s[..|pat|];
      assert OccursAt(s, pat, 0);
      Some(0)
    else if |s| <= |pat| then None
    else
      var rest := IndexOf(s[1..], pat);
      assert forall j :: 1 <= j ==> (OccursAt(s, pat, j) <==> OccursAt(s[1..], pat, j - 1)) by {
        forall j | 1 <= j
          ensures OccursAt(s, pat, j) <==> OccursAt(s[1..], pat, j - 1)
        {
          OccursShift(s, pat, j);
        }
      }
      match rest
      case None => None
      case Some(k) => Some(k + 1)
  }

  /** `s.includes(pat)`. */
  predicate Contains(s: string, pat: string)
  {
    IndexOf(s, pat).Some?
  }

  lemma ContainsIff(s: string, pat: string)
    ensures Contains(s, pat) <==> exists j :: OccursAt(s, pat, j)
  {
  }

  /** The replacement text `rep` as `String.prototype.replace` inserts it
      for a match of `matched` between `before` and `after` (ECMAScript's
      GetSubstitution with no capture groups): `$$` is a dollar sign, `$&`
      the match, `` $` `` the text before it, `$'` the text after it; any
      other character, a lone `$` included, stands for itself. */
  function Expand(rep: string, matched: string, before: string, after: string): string
    decreases |rep|
  {
    if |rep| == 0 then ""
    else if rep[0] == '$' && |rep| > 1 && rep[1] == '$' then "$" + Expand(rep[2..], matched, before, after)
    else if rep[0] == '$' && |rep| > 1 && rep[1] == '&' then matched + Expand(rep[2..], matched, before, after)
    else if rep[0] == '$' && |rep| > 1 && rep[1] == '`' then before + Expand(rep[2..], matched, before, after)
    else if rep[0] == '$' && |rep| > 1 && rep[1] == '\'' then after + Expand(rep[2..], matched, before, after)
    else [rep[0]] + Expand(rep[1..], matched, before, after)
  }

  /** `s` holds no dollar sign, so no substitution pattern can occur in it. */
  predicate DollarFree(s: string)
  {
    forall k :: 0 <= k < |s| ==> s[k] != '$'
  }

  /** A replacement text without a dollar sign is inserted as it is. */
  lemma {:induction false} ExpandLiteral(rep: string, matched: string, before: string, after: string)
    requires DollarFree(rep)
    ensures Expand(rep, matched, before, after) == rep
    decreases |rep|
  {
    if |rep| > 0 {
      assert rep[0] != '$';
      ExpandLiteral(rep[1..], matched, before, after);
      assert rep == [rep[0]] + rep[1..];
    }
  }

  /** `s.replace(pat, rep)` with a string pattern: only the first occurrence
      of `pat` is replaced, by `rep` with its `$` patterns expanded, and the
      text is unchanged when `pat` is absent. */
  function ReplaceFirst(s: string, pat: string, rep: string): (r: string)
    ensures (forall j :: !OccursAt(s, pat, j)) ==> r == s
  {
    match IndexOf(s, pat)
    case None => s
    case Some(i) => s[..i] + Expand(rep, pat, s[..i], s[i + |pat|..]) + s[i + |pat|..]
  }

  /** When `x + pat` holds no occurrence of `pat` other than the one that
      ends it, replacing the first `pat` in `x + pat + y` puts the expanded
      `rep` between `x` and `y`. */
  lemma ReplaceFirstAt(x: string, pat: string, y: string, rep: string)
    requires |pat| > 0
    requires !Contains(x + pat[..|pat| - 1], pat)
    ensures ReplaceFirst(x + pat + y, pat, rep) == x + Expand(rep, pat, x, y) + y
  {
    var s := x + pat + y;
    var p := x + pat[..|pat| - 1];
    assert s[|x|..|x| + |pat|] == pat;
    assert s == p + ([pat[|pat| - 1]] + y) by {
      assert pat == pat[..|pat| - 1] + [pat[|pat| - 1]];
    }
    assert s[..|p|] == p;
    forall j | 0 <= j < |x|
      ensures !OccursAt(s, pat, j)
    {
      assert !OccursAt(p, pat, j);
      assert s[j..j + |pat|] == s[..|p|][j..j + |pat|];
    }
    assert s[..|x|] == x;
    assert s[|x| + |pat|..] == y;
    assert OccursAt(s, pat, |x|);
    var v := IndexOf(s, pat).value;
    assert !(v < |x|) && !(|x| < v);
  }

  /** The same, for a replacement text without a dollar sign: it is inserted
      literally. */
  lemma ReplaceFirstLiteralAt(x: string, pat: string, y: string, rep: string)
    requires |pat| > 0 && DollarFree(rep)
    requires !Contains(x + pat[..|pat| - 1], pat)
    ensures ReplaceFirst(x + pat + y, pat, rep) == x + rep + y
  {
    ReplaceFirstAt(x, pat, y, rep);
    ExpandLiteral(rep, pat, x, y);
  }

  /** Replacing a pattern that does not occur anywhere changes nothing. */
  lemma ReplaceFirstAbsent(s: string, pat: string, rep: string)
    requires !Contains(s, pat)
    ensures ReplaceFirst(s, pat, rep) == s
  {
  }

  // ---------------------------------------------------------------------------
  // ASCII case-insensitive matching: the `/…/i` flag without `u`
  // ---------------------------------------------------------------------------

  /** ASCII lower-casing; every other character is its own case fold. */
  function Lower(c: char): (r: char)
    ensures ('A' <= c <= 'Z') ==> 'a' <= r <= 'z' && r as int == c as int + 32
    ensures !('A' <= c <= 'Z') ==> r == c
  {
    if 'A' <= c <= 'Z' then (c as int + 32) as char else c
  }

  /** `a` and `b` are equal up to ASCII case. */
  predicate EqualCI(a: string, b: string)
  {
    |a| == |b| && forall k :: 0 <= k < |a| ==> Lower(a[k]) == Lower(b[k])
  }

  /** The case-insensitive pattern `pat` matches `s` at index `i`. */
  predicate MatchesAtCI(s: string, pat: string, i: int)
  {
    0 <= i && i + |pat| <= |s| && EqualCI(s[i..i + |pat|], pat)
  }

  /** No case-insensitive occurrence of `pat` anywhere in `s`. */
  ghost predicate FreeOfCI(s: string, pat: string)
  {
    forall i :: !MatchesAtCI(s, pat, i)
  }

  /** No character of `a` equals a character of `b` up to ASCII case. */
  predicate DisjointCI(a: string, b: string)
  {
    forall i, j :: 0 <= i < |a| && 0 <= j < |b| ==> Lower(a[i]) != Lower(b[j])
  }

  /** A text equal to `p` up to case shares no character with what `p`
      shares none with. */
  lemma DisjointEqualCI(m: string, p: string, q: string)
    requires EqualCI(m, p) && DisjointCI(p, q)
    ensures DisjointCI(m, q)
  {
    forall i, j | 0 <= i < |m| && 0 <= j < |q|
      ensures Lower(m[i]) != Lower(q[j])
    {
      assert Lower(m[i]) == Lower(p[i]);
    }
  }

  /** `s.replace(/pat/ig, rep)` for a literal, non-empty `pat`: scanning left
      to right, every case-insensitive match is replaced by `rep` and the scan
      resumes after it; other characters are copied. */
  function ReplaceAllCI(s: string, pat: string, rep: string): (r: string)
    requires |pat| > 0
    decreases |s|
  {
    if |s| == 0 then []
    else if MatchesAtCI(s, pat, 0) then rep + ReplaceAllCI(s[|pat|..], pat, rep)
    else [s[0]] + ReplaceAllCI(s[1..], pat, rep)
  }

  lemma FreeOfSuffix(s: string, pat: string, n: nat)
    requires n <= |s| && FreeOfCI(s, pat)
    ensures FreeOfCI(s[n..], pat)
  {
    forall i | 0 <= i ensures !MatchesAtCI(s[n..], pat, i) {
      MatchShift(s[..n], s[n..], pat, n + i);
      assert s[..n] + s[n..] == s;
    }
  }

  /** A window that starts after `x` lies in `y`. */
  lemma MatchShift(x: string, y: string, pat: string, i: int)
    requires i >= |x|
    ensures MatchesAtCI(x + y, pat, i) <==> MatchesAtCI(y, pat, i - |x|)
  {
    if i + |pat| <= |x + y| {
      assert (x + y)[i..i + |pat|] == y[i - |x|..i - |x| + |pat|];
    }
  }

  /** With no match in `s`, the global replacement leaves `s` unchanged. */
  lemma {:induction false} ReplaceAllAbsent(s: string, pat: string, rep: string)
    requires |pat| > 0 && FreeOfCI(s, pat)
    ensures ReplaceAllCI(s, pat, rep) == s
    decreases |s|
  {
    if |s| > 0 {
      assert !MatchesAtCI(s, pat, 0);
      FreeOfSuffix(s, pat, 1);
      ReplaceAllAbsent(s[1..], pat, rep);
    }
  }

  /** At every position of `w`, `w` departs from `rep` within two characters
      (a match of the replaced pattern there would have emitted `rep`). */
  predicate Blocked(w: string, rep: string)
    requires |rep| > 0
  {
    forall k :: 0 <= k < |w| && w[k] == rep[0] ==> k + 1 < |w| && 1 < |rep| && w[k + 1] != rep[1]
  }

  lemma ReplaceAllMatchStep(s: string, pat: string, rep: string)
    requires |pat| > 0
    ensures MatchesAtCI(s, pat, 0) ==> ReplaceAllCI(s, pat, rep) == rep + ReplaceAllCI(s[|pat|..], pat, rep)
  {
  }

  /** A prefix `w` of the output that can contain no part of `rep` was copied
      from the input unchanged. */
  lemma {:induction false} PrefixKept(t: string, pat: string, rep: string, w: string)
    requires |pat| > 0 && |rep| > 0 && Blocked(w, rep)
    requires |w| <= |ReplaceAllCI(t, pat, rep)| && ReplaceAllCI(t, pat, rep)[..|w|] == w
    ensures |w| <= |t| && t[..|w|] == w
    ensures ReplaceAllCI(t, pat, rep) == w + ReplaceAllCI(t[|w|..], pat, rep)
    decreases |w|
  {
    if |w| > 0 {
      var out := ReplaceAllCI(t, pat, rep);
      assert out[0] == w[0];
      assert |t| > 0;
      assert !MatchesAtCI(t, pat, 0) by {
        ReplaceAllMatchStep(t, pat, rep);
        if w[0] == rep[0] {
          assert 1 < |w| && 1 < |rep| && w[1] != rep[1];
          assert w[1] == out[1];
        }
      }
      var tail := ReplaceAllCI(t[1..], pat, rep);
      assert out == [t[0]] + tail;
      assert tail[..|w| - 1] == w[1..];
      assert Blocked(w[1..], rep) by {
        forall k | 0 <= k < |w| - 1 && w[1..][k] == rep[0]
          ensures k + 1 < |w| - 1 && 1 < |rep| && w[1..][k + 1] != rep[1]
        {
          assert w[1..][k] == w[k + 1];
          if k + 1 < |w| - 1 {
            assert w[1..][k + 1] == w[k + 2];
          }
        }
      }
      PrefixKept(t[1..], pat, rep, w[1..]);
      assert t[1..][|w| - 1..] == t[|w|..];
      assert t[..|w|] == [t[0]] + t[1..][..|w| - 1];
    }
  }

  /** A pattern whose first character, up to case, appears nowhere else in
      it cannot overlap itself: no two matches can share a character. */
  predicate HeadUnique(pat: string)
    requires |pat| > 0
  {
    forall k :: 0 < k < |pat| ==> Lower(pat[k]) != Lower(pat[0])
  }

  /** For a pattern that cannot overlap itself, every match is replaced where
      it stands: the text on either side of it is replaced on its own, and no
      match can reach across it. */
  lemma {:induction false} ReplaceAllSplit(a: string, m: string, z: string, pat: string, rep: string)
    requires |pat| > 0 && HeadUnique(pat) && EqualCI(m, pat)
    ensures ReplaceAllCI(a + m + z, pat, rep) == ReplaceAllCI(a, pat, rep) + rep + ReplaceAllCI(z, pat, rep)
    decreases |a|
  {
    var s := a + m + z;
    if |a| == 0 {
      assert s == m + z;
      assert s[0..|pat|] == m;
      assert s[|pat|..] == z;
    } else {
      StartBeforeMatch(a, m, z, pat);
      var n := Advanced(a, pat);
      assert s[n..] == a[n..] + m + z;
      ReplaceAllSplit(a[n..], m, z, pat, rep);
      ReplaceAllUnfold(s, pat, rep);
      ReplaceAllUnfold(a, pat, rep);
      Regroup(Emitted(a, pat, rep), ReplaceAllCI(a[n..], pat, rep), rep, ReplaceAllCI(z, pat, rep));
    }
  }

  /** How far one step of the global replacement moves through `s`. */
  function Advanced(s: string, pat: string): nat
  {
    if MatchesAtCI(s, pat, 0) then |pat| else 1
  }

  /** What one step of the global replacement emits at the start of `s`. */
  function Emitted(s: string, pat: string, rep: string): string
    requires |s| > 0
  {
    if MatchesAtCI(s, pat, 0) then rep else [s[0]]
  }

  lemma ReplaceAllUnfold(s: string, pat: string, rep: string)
    requires |pat| > 0 && |s| > 0
    ensures Advanced(s, pat) <= |s|
    ensures ReplaceAllCI(s, pat, rep) == Emitted(s, pat, rep) + ReplaceAllCI(s[Advanced(s, pat)..], pat, rep)
  {
  }

  /** Reassociates a concatenation, one instance at a time. */
  lemma Regroup(w: string, x: string, y: string, z: string)
    ensures w + (x + y + z) == w + x + y + z
  {
  }

  lemma Assoc(x: string, y: string, z: string)
    ensures x + (y + z) == x + y + z
  {
  }

  /** Before a match `m` of a pattern that cannot overlap itself, `a + m + z`
      begins with a match exactly when `a` does, and such a match lies in `a`. */
  lemma StartBeforeMatch(a: string, m: string, z: string, pat: string)
    requires |pat| > 0 && |a| > 0 && HeadUnique(pat) && EqualCI(m, pat)
    ensures MatchesAtCI(a + m + z, pat, 0) == MatchesAtCI(a, pat, 0)
    ensures Advanced(a + m + z, pat) <= |a|
    ensures (a + m + z)[0] == a[0]
  {
    var s := a + m + z;
    if |a| < |pat| {
      assert s[0..|pat|][|a|] == m[0];
    } else {
      assert a[0..|pat|] == s[0..|pat|];
    }
  }

  /** A non-empty stretch `w` that shares no character with `pat` up to case
      is no part of any match: it is kept, and the text on either side of it
      is replaced on its own. */
  lemma {:induction false} ReplaceAllAround(a: string, w: string, z: string, pat: string, rep: string)
    requires |pat| > 0 && |w| > 0 && DisjointCI(w, pat)
    ensures ReplaceAllCI(a + w + z, pat, rep) == ReplaceAllCI(a, pat, rep) + w + ReplaceAllCI(z, pat, rep)
    decreases |a| + |w|
  {
    var s := a + w + z;
    if |a| == 0 {
      assert s == w + z;
      assert !MatchesAtCI(s, pat, 0) by {
        if |pat| <= |s| {
          assert s[0..|pat|][0] == w[0];
        }
      }
      assert s[1..] == w[1..] + z;
      if |w| > 1 {
        ReplaceAllAround([], w[1..], z, pat, rep);
        assert [] + w[1..] + z == w[1..] + z;
      }
      assert w == [w[0]] + w[1..];
    } else {
      StartBeforeStretch(a, w, z, pat);
      var n := Advanced(a, pat);
      assert s[n..] == a[n..] + w + z;
      ReplaceAllAround(a[n..], w, z, pat, rep);
      ReplaceAllUnfold(s, pat, rep);
      ReplaceAllUnfold(a, pat, rep);
      Regroup(Emitted(a, pat, rep), ReplaceAllCI(a[n..], pat, rep), w, ReplaceAllCI(z, pat, rep));
    }
  }

  /** Before a stretch that shares no character with `pat`, `a + w + z`
      begins with a match exactly when `a` does, and such a match lies in `a`. */
  lemma StartBeforeStretch(a: string, w: string, z: string, pat: string)
    requires |pat| > 0 && |a| > 0 && |w| > 0 && DisjointCI(w, pat)
    ensures MatchesAtCI(a + w + z, pat, 0) == MatchesAtCI(a, pat, 0)
    ensures Advanced(a + w + z, pat) <= |a|
    ensures (a + w + z)[0] == a[0]
  {
    var s := a + w + z;
    if |a| < |pat| {
      if |pat| <= |s| {
        assert s[0..|pat|][|a|] == w[0];
      }
    } else {
      assert a[0..|pat|] == s[0..|pat|];
    }
  }

  /** Where `s` does not begin with `pat`, an occurrence of `other` at the
      start of the output was already at the start of `s`, provided the first
      character of `rep` cannot stand for any later character of `other`. */
  lemma WindowKept(s: string, pat: string, rep: string, other: string)
    requires |s| > 0 && |pat| > 0 && |rep| > 0 && |other| > 0
    requires !MatchesAtCI(s, pat, 0)
    requires forall k :: 0 < k < |other| ==> Lower(other[k]) != Lower(rep[0])
    ensures MatchesAtCI(ReplaceAllCI(s, pat, rep), other, 0) ==> MatchesAtCI(s, other, 0)
  {
    var out := ReplaceAllCI(s, pat, rep);
    var tail := ReplaceAllCI(s[1..], pat, rep);
    assert out == [s[0]] + tail;
    if MatchesAtCI(out, other, 0) {
      var n := |other| - 1;
      var w := out[1..|other|];
      assert n <= |s[1..]| && s[1..|other|] == w by {
        assert w == tail[..n];
        WindowBlocked(out, other, rep);
        PrefixKept(s[1..], pat, rep, w);
        assert s[1..|other|] == s[1..][..n];
      }
      WindowCopied(s, out, other);
    }
  }

  /** Inside a case-insensitive match of `other` at the start of `out`, no
      character after the first is the first character of `rep`. */
  lemma WindowBlocked(out: string, other: string, rep: string)
    requires |rep| > 0 && |other| > 0 && MatchesAtCI(out, other, 0)
    requires forall k :: 0 < k < |other| ==> Lower(other[k]) != Lower(rep[0])
    ensures Blocked(out[1..|other|], rep)
  {
    var w := out[1..|other|];
    forall k | 0 <= k < |w| ensures w[k] != rep[0] {
      assert w[k] == out[..|other|][k + 1];
      assert Lower(out[..|other|][k + 1]) == Lower(other[k + 1]);
    }
  }

  /** A text that agrees with `out` on the window of a match of `other`
      matches `other` there too. */
  lemma WindowCopied(s: string, out: string, other: string)
    requires |other| > 0 && MatchesAtCI(out, other, 0) && |other| <= |s|
    requires s[0] == out[0] && s[1..|other|] == out[1..|other|]
    ensures MatchesAtCI(s, other, 0)
  {
    assert s[..|other|] == out[..|other|] by {
      forall k | 0 <= k < |other| ensures s[..|other|][k] == out[..|other|][k] {
        if k > 0 {
          assert s[k] == s[1..|other|][k - 1];
        }
      }
    }
    assert s[0..|other|] == s[..|other|] && out[0..|other|] == out[..|other|];
  }

  /** Every case-insensitive occurrence of `pat` is gone after the global
      replacement, provided `rep` cannot recreate one: its first character is
      the only one that may stand for the first character of `pat`, it does
      not begin with `pat`, and it stands for no later character of `pat`. */
  lemma {:induction false} ReplaceAllRemoves(s: string, pat: string, rep: string)
    requires |pat| > 0 && |pat| <= |rep|
    requires forall i :: 0 < i < |rep| ==> Lower(rep[i]) != Lower(pat[0])
    requires !EqualCI(rep[..|pat|], pat)
    requires forall k :: 0 < k < |pat| ==> Lower(pat[k]) != Lower(rep[0])
    ensures FreeOfCI(ReplaceAllCI(s, pat, rep), pat)
    decreases |s|
  {
    if |s| > 0 {
      var out := ReplaceAllCI(s, pat, rep);
      if MatchesAtCI(s, pat, 0) {
        var tail := ReplaceAllCI(s[|pat|..], pat, rep);
        ReplaceAllRemoves(s[|pat|..], pat, rep);
        assert out == rep + tail;
        forall i | 0 <= i ensures !MatchesAtCI(out, pat, i) {
          if i == 0 {
            assert out[..|pat|] == rep[..|pat|];
          } else if 0 < i < |rep| {
            assert out[i] == rep[i];
          } else {
            MatchShift(rep, tail, pat, i);
          }
        }
      } else {
        var tail := ReplaceAllCI(s[1..], pat, rep);
        ReplaceAllRemoves(s[1..], pat, rep);
        assert out == [s[0]] + tail;
        forall i ensures !MatchesAtCI(out, pat, i) {
          if i <= 0 {
            assert !MatchesAtCI(s, pat, 0);
            assert forall k :: 0 < k < |pat| ==> Lower(pat[k]) != Lower(rep[0]);
            WindowKept(s, pat, rep, pat);
          } else {
            MatchShift([s[0]], tail, pat, i);
          }
        }
      }
    }
  }

  /** A global replacement whose replacement text shares no character with
      `other` cannot create an occurrence of `other`. */
  lemma {:induction false} ReplaceAllPreserves(s: string, pat: string, rep: string, other: string)
    requires |pat| > 0 && |rep| > 0 && |other| > 0
    requires DisjointCI(rep, other) && FreeOfCI(s, other)
    ensures FreeOfCI(ReplaceAllCI(s, pat, rep), other)
    decreases |s|
  {
    if |s| > 0 {
      var out := ReplaceAllCI(s, pat, rep);
      if MatchesAtCI(s, pat, 0) {
        var tail := ReplaceAllCI(s[|pat|..], pat, rep);
        FreeOfSuffix(s, other, |pat|);
        ReplaceAllPreserves(s[|pat|..], pat, rep, other);
        assert out == rep + tail;
        forall i | 0 <= i ensures !MatchesAtCI(out, other, i) {
          if i < |rep| {
            assert out[i] == rep[i];
          } else {
            MatchShift(rep, tail, other, i);
          }
        }
      } else {
        var tail := ReplaceAllCI(s[1..], pat, rep);
        FreeOfSuffix(s, other, 1);
        ReplaceAllPreserves(s[1..], pat, rep, other);
        assert out == [s[0]] + tail;
        forall i ensures !MatchesAtCI(out, other, i) {
          if i <= 0 {
            assert !MatchesAtCI(s, pat, 0);
            assert forall k :: 0 < k < |other| ==> Lower(other[k]) != Lower(rep[0]);
            WindowKept(s, pat, rep, other);
          } else {
            MatchShift([s[0]], tail, other, i);
          }
        }
      }
    }
  }

  /** Reference definition for a one-character pattern: each character that
      equals `c` up to case becomes `rep`, every other character is kept. */
  function ReplaceEachChar(s: string, c: char, rep: string): string
  {
    if |s| == 0 then []
    else (if Lower(s[0]) == Lower(c) then rep else [s[0]]) + ReplaceEachChar(s[1..], c, rep)
  }

  /** For a one-character pattern the global replacement is the character-wise
      reference definition: no other character is altered. */
  lemma {:induction false} ReplaceAllOneChar(s: string, c: char, rep: string)
    ensures ReplaceAllCI(s, [c], rep) == ReplaceEachChar(s, c, rep)
    decreases |s|
  {
    if |s| > 0 {
      assert MatchesAtCI(s, [c], 0) <==> Lower(s[0]) == Lower(c) by {
        assert s[0..1] == [s[0]];
      }
      ReplaceAllOneChar(s[1..], c, rep);
    }
  }

  // ---------------------------------------------------------------------------
  // Array join and its inverse
  // ---------------------------------------------------------------------------

  /** `parts.join("\n")`. */
  function Join(parts: seq<string>): string
  {
    if |parts| == 0 then ""
    else if |parts| == 1 then parts[0]
    else parts[0] + "\n" + Join(parts[1..])
  }

  /** Splits `s` at every line feed, keeping a last empty piece: the inverse
      of `Join` on lines without line feeds. */
  function SplitLines(s: string): (r: seq<string>)
    ensures |r| > 0
    decreases |s|
  {
    match IndexOf(s, "\n")
    case None => [s]
    case Some(i) => [s[..i]] + SplitLines(s[i + 1..])
  }

  /** Joining lines that hold no line feed and splitting again gives the same
      lines back. */
  lemma {:induction false} SplitJoin(parts: seq<string>)
    requires |parts| > 0
    requires forall k :: 0 <= k < |parts| ==> !Contains(parts[k], "\n")
    ensures SplitLines(Join(parts)) == parts
    decreases |parts|
  {
    if |parts| > 1 {
      var p := parts[0];
      var rest := Join(parts[1..]);
      var s := p + "\n" + rest;
      assert Join(parts) == s;
      FirstLineFeed(p, rest);
      SplitJoin(parts[1..]);
    }
  }

  /** The first line feed of `p + "\n" + rest`, for `p` without one, is the
      one after `p`. */
  lemma FirstLineFeed(p: string, rest: string)
    requires !Contains(p, "\n")
    ensures var s := p + "\n" + rest;
      IndexOf(s, "\n") == Some(|p|) && s[..|p|] == p && s[|p| + 1..] == rest
  {
    var s := p + "\n" + rest;
    assert OccursAt(s, "\n", |p|) by {
      assert s[|p|..|p| + 1] == "\n";
    }
    forall j | 0 <= j < |p|
      ensures !OccursAt(s, "\n", j)
    {
      assert !OccursAt(p, "\n", j);
      assert s[j..j + 1] == p[j..j + 1];
    }
    assert s[..|p|] == p;
    assert s[|p| + 1..] == rest;
  }
}
