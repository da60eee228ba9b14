/** The glob compiler and matcher of glib_compat/gpattern.c. Strings carry no terminator
    here: reading past the end gives NUL, and no string contains NUL. */
module Pattern {
  import opened Glob

  const NUL: char := '\0'

  predicate NulFree(s: string) { NUL !in s }

  /** `*p` for a pointer at index `i`. */
  function At(s: string, i: nat): char {
    if i < |s| then s[i] else NUL
  }

  /** No suffix of `s` matches: moving the match position further cannot help. */
  ghost predicate Hopeless(p: string, s: string) {
    forall k :: 0 <= k <= |s| ==> !Matches(p, s[k..])
  }

  /** The first `i` characters of the pattern have consumed the first `i` of the string. */
  ghost predicate Consumed(p: string, s: string, i: nat) {
    i <= |p| && i <= |s| && forall t :: 0 <= t < i ==> p[t] != STAR && (p[t] == JOKER || p[t] == s[t])
  }

  lemma ConsumedOne(p: string, s: string)
    requires p != [] && Consumed(p, s, 1)
    ensures Matches(p, s) <==> Matches(p[1..], s[1..])
    ensures Hopeless(p[1..], s[1..]) ==> Hopeless(p, s)
  {
    if Hopeless(p[1..], s[1..]) {
      forall k | 0 <= k <= |s| ensures !Matches(p, s[k..]) {
        if k < |s| {
          assert s[k..][1..] == s[1..][k..];
        }
      }
    }
  }

  lemma {:induction false} ConsumedGlob(p: string, s: string, i: nat)
    requires Consumed(p, s, i)
    ensures Matches(p, s) <==> Matches(p[i..], s[i..])
    ensures Hopeless(p[i..], s[i..]) ==> Hopeless(p, s)
  {
    hide Matches, Hopeless;
    if i == 0 {
      assert p[i..] == p && s[i..] == s;
    } else {
      ConsumedGlob(p[1..], s[1..], i - 1);
      assert p[1..][i - 1..] == p[i..] && s[1..][i - 1..] == s[i..];
      ConsumedOne(p, s);
    }
  }

  /** A pattern that starts with a star and fails on a string fails on all its suffixes. */
  lemma StarHopeless(p: string, s: string)
    requires p != [] && p[0] == STAR && !Matches(p, s)
    ensures Hopeless(p, s)
  {
    assert p == [STAR] + p[1..];
    StarMatches(p[1..], s);
    forall k | 0 <= k <= |s| ensures !Matches(p, s[k..]) {
      StarMatches(p[1..], s[k..]);
      forall j | 0 <= j <= |s[k..]| ensures !Matches(p[1..], s[k..][j..]) {
        assert s[k..][j..] == s[k + j..];
      }
    }
  }

  lemma JokerStep(p: string, s: string)
    ensures Matches([JOKER] + p, s) <==> s != [] && Matches(p, s[1..])
  {
    assert ([JOKER] + p)[1..] == p;
  }

  /** A star right after a star is absorbed. */
  lemma StarAfterStar(p: string, s: string)
    ensures Matches([STAR] + ([STAR] + p), s) <==> Matches([STAR] + p, s)
  {
    StarJokers(0);
    assert [STAR] + Jokers(0) == [STAR] && [STAR] + Jokers(0) + [STAR] == [STAR, STAR];
    assert Equivalent([STAR, STAR], [STAR]);
    hide *;
    EquivalentParts([STAR, STAR], [STAR], p, p);
    assert [STAR] + ([STAR] + p) == [STAR, STAR] + p;
  }

  lemma StarJokerSwap()
    ensures Equivalent([STAR, JOKER], [JOKER, STAR])
  {
    hide Matches;
    StarJokers(1);
    assert [STAR] + Jokers(1) == [STAR, JOKER] && Jokers(1) + [STAR] == [JOKER, STAR];
  }

  /** A joker right after a star eats one character. */
  lemma JokerAfterStar(p: string, s: string)
    ensures Matches([STAR] + ([JOKER] + p), s) <==> s != [] && Matches([STAR] + p, s[1..])
  {
    hide *;
    StarJokerSwap();
    EquivalentParts([STAR, JOKER], [JOKER, STAR], p, p);
    assert [STAR] + ([JOKER] + p) == [STAR, JOKER] + p;
    assert [JOKER] + ([STAR] + p) == [JOKER, STAR] + p;
    JokerStep([STAR] + p, s);
  }

  /** A literal after a star has to be found first. */
  lemma StarLiteral(c: char, q: string, s: string)
    requires c != STAR && c != JOKER
    ensures Matches([STAR] + ([c] + q), s) <==>
            s != [] && ((s[0] == c && Matches(q, s[1..])) || Matches([STAR] + ([c] + q), s[1..]))
  {
    assert ([STAR] + ([c] + q))[1..] == [c] + q && ([c] + q)[1..] == q;
  }

  /** The rest of the pattern is hopeless behind one occurrence: so it is behind all later ones. */
  lemma NoLaterStart(c: char, q: string, s: string)
    requires c != STAR && c != JOKER && s != [] && Hopeless(q, s[1..])
    ensures !Matches([STAR] + ([c] + q), s)
  {
    StarMatches([c] + q, s);
    forall k | 0 <= k <= |s| ensures !Matches([c] + q, s[k..]) {
      assert ([c] + q)[1..] == q;
      if k < |s| { assert s[k..][1..] == s[1..][k..]; }
    }
  }

  /** g_pattern_ph_match. The flag reports that a wildcard was reached; a failure after
      that is final for every later match position. */
  method PhMatch(p: string, s: string) returns (r: bool, reached: bool)
    requires NulFree(p) && NulFree(s)
    ensures r <==> Matches(p, s)
    ensures reached && !r ==> Hopeless(p, s)
    decreases |p|
  {
    reached := false;
    var i: nat, j: nat := 0, 0;
    while i < |p|
      invariant i <= |p| && j <= |s|
      invariant Matches(p, s) <==> Matches(p[i..], s[j..])
      invariant !reached ==> i == j && Consumed(p, s, i)
      invariant reached ==> Hopeless(p, s)
    {
      if !reached { ConsumedGlob(p, s, i); }
      if p[i] == JOKER {
        if At(s, j) == NUL { return false, reached; }
        assert s[j..][1..] == s[j + 1..] && p[i..][1..] == p[i + 1..];
        i, j := i + 1, j + 1;
      } else if p[i] == STAR {
        ghost var star, rest := p[i..], s[j..];
        reached := true;
        var done;
        done, r, i, j := Wildcard(p, s, i, j);
        if !Matches(star, rest) { StarHopeless(star, rest); }
        if done { return; }
      } else {
        if p[i] != At(s, j) { return false, reached; }
        assert s[j..][1..] == s[j + 1..] && p[i..][1..] == p[i + 1..];
        i, j := i + 1, j + 1;
      }
    }
    r := At(s, j) == NUL;
  }

  /** The '*' case: skip the wildcards behind it, then try the rest of the pattern behind
      each occurrence of the next literal. Not done means the string ran out first. */
  method Wildcard(p: string, s: string, from: nat, at: nat)
    returns (done: bool, r: bool, i: nat, j: nat)
    requires NulFree(p) && NulFree(s) && from < |p| && p[from] == STAR && at <= |s|
    ensures from < i <= |p| && j <= |s|
    ensures done ==> (r <==> Matches(p[from..], s[at..]))
    ensures !done ==> !Matches(p[from..], s[at..]) && !Matches(p[i..], s[j..])
    decreases |p|, 0
  {
    i, j := from + 1, at;
    done, r := true, false;
    ghost var wanted := Matches(p[from..], s[at..]);
    assert p[from..] == [STAR] + p[i..];
    while i < |p| && (p[i] == STAR || p[i] == JOKER)
      invariant from < i <= |p| && j <= |s|
      invariant wanted <==> Matches([STAR] + p[i..], s[j..])
    {
      assert p[i..] == [p[i]] + p[i + 1..];
      if p[i] == JOKER {
        JokerAfterStar(p[i + 1..], s[j..]);
        if At(s, j) == NUL { return; }
        assert s[j..][1..] == s[j + 1..];
        j := j + 1;
      } else {
        StarAfterStar(p[i + 1..], s[j..]);
      }
      i := i + 1;
    }
    if i == |p| {
      assert [STAR] + p[i..] == [STAR];
      StarAny(s[j..]);
      r := true;
      return;
    }
    var c := p[i];
    ghost var q := p[i + 1..];
    assert p[i..] == [c] + q;
    i := i + 1;
    done, r, j := Retry(c, p[i..], s, j);
  }

  /** The loop over the occurrences of `c`, with `q` the pattern behind it. */
  method Retry(c: char, q: string, s: string, at: nat) returns (done: bool, r: bool, j: nat)
    requires c != STAR && c != JOKER && c != NUL
    requires NulFree(q) && NulFree(s) && at <= |s|
    ensures j <= |s|
    ensures done ==> (r <==> Matches([STAR] + ([c] + q), s[at..]))
    ensures !done ==> !Matches([STAR] + ([c] + q), s[at..]) && !Matches(q, s[j..])
    decreases |q| + 1, 0
  {
    j := at;
    ghost var wanted := Matches([STAR] + ([c] + q), s[at..]);
    while true
      invariant j <= |s| && (wanted <==> Matches([STAR] + ([c] + q), s[j..]))
      decreases |s| - j
    {
      while c != At(s, j)
        invariant j <= |s| && (wanted <==> Matches([STAR] + ([c] + q), s[j..]))
        decreases |s| - j
      {
        StarLiteral(c, q, s[j..]);
        if At(s, j) == NUL { return true, false, j; }
        assert s[j..][1..] == s[j + 1..];
        j := j + 1;
      }
      StarLiteral(c, q, s[j..]);
      assert s[j..][1..] == s[j + 1..];
      j := j + 1;
      var found, nextReached := PhMatch(q, s[j..]);
      if found { return true, true, j; }
      if nextReached {
        NoLaterStart(c, q, s[j - 1..]);
        return true, false, j;
      }
      if At(s, j) == NUL {
        StarLiteral(c, q, s[j..]);
        return false, false, j;
      }
    }
  }
}
