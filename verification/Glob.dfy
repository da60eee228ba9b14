/** What a glob pattern means: '?' stands for one character, '*' for any number of them,
    every other character for itself. */
module Glob {

  const STAR: char := '*'
  const JOKER: char := '?'

  ghost predicate Matches(p: string, s: string)
    decreases |p|, |s|
  {
    if p == [] then s == []
    else if p[0] == STAR then Matches(p[1..], s) || (s != [] && Matches(p, s[1..]))
    else s != [] && (p[0] == JOKER || p[0] == s[0]) && Matches(p[1..], s[1..])
  }

  /** A star matches whatever the rest of the pattern leaves it. */
  lemma {:induction false} StarMatches(p: string, s: string)
    ensures Matches([STAR] + p, s) <==> exists k :: 0 <= k <= |s| && Matches(p, s[k..])
    decreases |s|
  {
    assert ([STAR] + p)[1..] == p;
    if s == [] {
      assert s[0..] == s;
    } else {
      StarMatches(p, s[1..]);
      assert s[0..] == s;
      if Matches([STAR] + p, s[1..]) {
        var k :| 0 <= k <= |s[1..]| && Matches(p, s[1..][k..]);
        assert s[1..][k..] == s[k + 1..];
      }
      forall k | 1 <= k <= |s| && Matches(p, s[k..]) ensures Matches([STAR] + p, s[1..]) {
        assert s[1..][k - 1..] == s[k..];
      }
    }
  }

  /** Matching a concatenation is matching the parts of some split. */
  lemma {:induction false} GlobSplit(p: string, q: string, s: string) returns (k: nat)
    requires Matches(p + q, s)
    ensures k <= |s| && Matches(p, s[..k]) && Matches(q, s[k..])
    decreases |p|, |s|
  {
    if p == [] {
      assert p + q == q;
      k := 0;
      assert s[0..] == s && s[..0] == [];
    } else {
      assert (p + q)[1..] == p[1..] + q && (p + q)[0] == p[0];
      if p[0] == STAR && Matches(p[1..] + q, s) {
        k := GlobSplit(p[1..], q, s);
      } else if p[0] == STAR {
        k := GlobSplit(p, q, s[1..]);
        k := k + 1;
        assert s[1..][..k - 1] == s[..k][1..] && s[1..][k - 1..] == s[k..];
      } else {
        k := GlobSplit(p[1..], q, s[1..]);
        k := k + 1;
        assert s[1..][..k - 1] == s[..k][1..] && s[1..][k - 1..] == s[k..];
      }
    }
  }

  lemma {:induction false} GlobJoin(p: string, q: string, s: string, k: nat)
    requires k <= |s| && Matches(p, s[..k]) && Matches(q, s[k..])
    ensures Matches(p + q, s)
    decreases |p|, |s|
  {
    if p == [] {
      assert p + q == q && s[k..] == s;
    } else {
      assert (p + q)[1..] == p[1..] + q && (p + q)[0] == p[0];
      if p[0] == STAR && Matches(p[1..], s[..k]) {
        GlobJoin(p[1..], q, s, k);
      } else if p[0] == STAR {
        assert s[..k][1..] == s[1..][..k - 1] && s[k..] == s[1..][k - 1..];
        GlobJoin(p, q, s[1..], k - 1);
      } else {
        assert s[..k][1..] == s[1..][..k - 1] && s[k..] == s[1..][k - 1..];
        GlobJoin(p[1..], q, s[1..], k - 1);
      }
    }
  }

  /** Two patterns that match the same strings. */
  ghost predicate Equivalent(p: string, q: string) {
    forall s :: Matches(p, s) <==> Matches(q, s)
  }

  /** Equivalent parts may be exchanged. */
  lemma EquivalentParts(p: string, p': string, q: string, q': string)
    requires Equivalent(p, p') && Equivalent(q, q')
    ensures Equivalent(p + q, p' + q')
  {
    forall s ensures Matches(p + q, s) <==> Matches(p' + q', s) {
      if Matches(p + q, s) {
        var k := GlobSplit(p, q, s);
        GlobJoin(p', q', s, k);
      }
      if Matches(p' + q', s) {
        var k := GlobSplit(p', q', s);
        GlobJoin(p, q, s, k);
      }
    }
  }

  function Jokers(n: nat): (r: string)
    ensures |r| == n
  {
    seq(n, _ => JOKER)
  }

  lemma {:induction false} JokersMatch(n: nat, s: string)
    ensures Matches(Jokers(n), s) <==> |s| == n
  {
    if n > 0 {
      assert Jokers(n)[1..] == Jokers(n - 1);
      if s != [] { JokersMatch(n - 1, s[1..]); }
    }
  }

  lemma StarAny(s: string)
    ensures Matches([STAR], s)
  {
    StarMatches([], s);
    assert [STAR] + [] == [STAR];
    assert s[|s|..] == [];
  }

  /** A star and jokers in a row match the strings that are long enough, in any order. */
  lemma StarJokers(n: nat)
    ensures forall s :: Matches([STAR] + Jokers(n), s) <==> |s| >= n
    ensures forall s :: Matches(Jokers(n) + [STAR], s) <==> |s| >= n
    ensures forall s :: Matches([STAR] + Jokers(n) + [STAR], s) <==> |s| >= n
  {
    forall s ensures Matches([STAR] + Jokers(n), s) <==> |s| >= n {
      StarMatches(Jokers(n), s);
      forall k | 0 <= k <= |s| ensures Matches(Jokers(n), s[k..]) <==> |s| - k == n { JokersMatch(n, s[k..]); }
      if |s| >= n { assert Matches(Jokers(n), s[|s| - n..]); }
    }
    forall s ensures Matches(Jokers(n) + [STAR], s) <==> |s| >= n {
      if Matches(Jokers(n) + [STAR], s) {
        var k := GlobSplit(Jokers(n), [STAR], s);
        JokersMatch(n, s[..k]);
      }
      if |s| >= n {
        JokersMatch(n, s[..n]);
        StarAny(s[n..]);
        GlobJoin(Jokers(n), [STAR], s, n);
      }
    }
    forall s ensures Matches([STAR] + Jokers(n) + [STAR], s) <==> |s| >= n {
      if Matches([STAR] + Jokers(n) + [STAR], s) {
        var k := GlobSplit([STAR] + Jokers(n), [STAR], s);
      }
      if |s| >= n {
        StarAny([]);
        assert s[..|s|] == s && s[|s|..] == [];
        GlobJoin([STAR] + Jokers(n), [STAR], s, |s|);
      }
    }
  }

  predicate Literal(p: string) {
    STAR !in p && JOKER !in p
  }

  lemma {:induction false} LiteralMatch(p: string, s: string)
    requires Literal(p)
    ensures Matches(p, s) <==> p == s
  {
    if p != [] {
      if s != [] {
        LiteralMatch(p[1..], s[1..]);
        assert p == [p[0]] + p[1..] && s == [s[0]] + s[1..];
      }
    }
  }

  function Reverse(s: string): (r: string)
    ensures |r| == |s|
  {
    seq(|s|, i requires 0 <= i < |s| => s[|s| - 1 - i])
  }

  lemma ReverseParts(p: string, q: string)
    ensures Reverse(p + q) == Reverse(q) + Reverse(p)
    ensures Reverse(Reverse(p)) == p
  {}

  /** Matching works the same from the other end. */
  lemma {:induction false} GlobReverse(p: string, s: string)
    ensures Matches(Reverse(p), Reverse(s)) <==> Matches(p, s)
  {
    GlobReverseOne(p, s);
    GlobReverseOne(Reverse(p), Reverse(s));
    ReverseParts(p, []);
    ReverseParts(s, []);
  }

  lemma {:induction false} GlobReverseOne(p: string, s: string)
    ensures Matches(p, s) ==> Matches(Reverse(p), Reverse(s))
    decreases |p|
  {
    if Matches(p, s) {
      if p == [] {
        assert Reverse(p) == [] && Reverse(s) == [];
      } else {
        assert p == p[..1] + p[1..];
        var k := GlobSplit(p[..1], p[1..], s);
        GlobReverseOne(p[1..], s[k..]);
        OneReversed(p[..1], s[..k]);
        ReverseParts(p[..1], p[1..]);
        ReverseParts(s[..k], s[k..]);
        assert s == s[..k] + s[k..];
        var r := Reverse(s);
        assert r[..|s| - k] == Reverse(s[k..]) && r[|s| - k..] == Reverse(s[..k]);
        GlobJoin(Reverse(p[1..]), Reverse(p[..1]), r, |s| - k);
      }
    }
  }

  lemma OneReversed(c: string, s: string)
    requires |c| == 1 && Matches(c, s)
    ensures Matches(Reverse(c), Reverse(s))
  {
    assert Reverse(c) == c;
    if c[0] == STAR {
      assert c == [STAR];
      StarAny(Reverse(s));
    } else {
      assert |s| == 1;
      assert Reverse(s) == s;
    }
  }
}
