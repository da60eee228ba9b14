/** Compiled patterns: g_pattern_spec_new and g_pattern_match of glib_compat/gpattern.c. */
module PatternSpec {
  import opened Glob
  import opened Pattern
  import opened Wrappers

  const UINT_MAX: nat := 0xFFFF_FFFF
  const INT_RANGE: nat := 0x8000_0000

  datatype MatchType = All | AllTail | Head | Tail | Exact

  datatype Spec = Spec(matchType: MatchType, patternLength: nat, minLength: nat, maxLength: nat, pattern: string)

  /** Characters other than '*': each takes exactly one character of the string. */
  ghost function Solid(p: string): nat { |p| - multiset(p)[STAR] }

  ghost function JokerCount(p: string): nat { multiset(p)[JOKER] }

  /** The upper length bound the compiler accumulates in a 32-bit counter: four bytes per
      joker, one per literal. */
  ghost function ByteBound(p: string): nat {
    (Solid(p) + 3 * JokerCount(p)) % (UINT_MAX + 1)
  }

  ghost predicate Compiled(p: string, spec: Spec) {
    && NulFree(spec.pattern) && spec.patternLength == |spec.pattern|
    && spec.minLength == Solid(p)
    && spec.maxLength == (if STAR in p then UINT_MAX else ByteBound(p))
    && match spec.matchType
       case All => Equivalent(p, spec.pattern)
       case AllTail => Equivalent(p, Reverse(spec.pattern)) && Solid(p) >= 1
       case Head => Literal(spec.pattern) && Equivalent(p, spec.pattern + [STAR])
       case Tail => Literal(spec.pattern) && Equivalent(p, [STAR] + spec.pattern) && spec.patternLength == spec.minLength
       case Exact => Literal(spec.pattern) && Equivalent(p, spec.pattern)
  }

  /** What has been written and how many jokers are pending after reading `p`, and whether
      the last character that is not a joker was a star. */
  function Scan(p: string): (string, nat, bool) {
    if p == [] then ("", 0, false)
    else
      var (d, n, f) := Scan(p[..|p| - 1]);
      var c := p[|p| - 1];
      if c == STAR then (if f then d else d + [STAR], n, true)
      else if c == JOKER then (d, n + 1, f)
      else (d + Jokers(n) + [c], 0, false)
  }

  /** The canonical text: stars in a row merged, and jokers moved behind them. */
  function Canon(p: string): string {
    var (d, n, _) := Scan(p);
    d + Jokers(n)
  }

  /** The length fits 32 bits, and the positions in the canonical text signed ones. */
  ghost predicate Positioned(p: string) {
    |p| <= UINT_MAX && |Canon(p)| < INT_RANGE
  }

  lemma {:induction false} CanonShorter(p: string)
    ensures |Canon(p)| <= |p|
  {
    if p != [] { CanonShorter(p[..|p| - 1]); }
  }

  /** Every pattern below 2^31 characters will do. */
  lemma ShortPositioned(p: string)
    requires |p| < INT_RANGE
    ensures Positioned(p)
  {
    CanonShorter(p);
  }

  lemma ScanEmpty()
    ensures Scan("") == ("", 0, false)
  {}

  lemma ScanStep(p: string, k: nat)
    requires k < |p|
    ensures var (d, n, f) := Scan(p[..k]);
            Scan(p[..k + 1]) ==
            if p[k] == STAR then (if f then d else d + [STAR], n, true)
            else if p[k] == JOKER then (d, n + 1, f)
            else (d + Jokers(n) + [p[k]], 0, false)
  {
    assert p[..k + 1][..k] == p[..k];
  }

  /** The text a compiled pattern stands for. */
  ghost function Text(spec: Spec): string {
    match spec.matchType
    case All => spec.pattern
    case AllTail => Reverse(spec.pattern)
    case Head => spec.pattern + [STAR]
    case Tail => [STAR] + spec.pattern
    case Exact => spec.pattern
  }

  /** The last star is farther from the end than the first one from the start: unless the
      pattern is a star and a literal text, it is matched from the end. */
  ghost predicate FromEnd(d: string) {
    !TailOnly(d) && exists hw, tw :: hw >= 0 && Stars(d, hw, tw) && |d| - 1 - tw > hw
  }

  ghost predicate TailOnly(d: string) {
    d != [] && d[0] == STAR && Literal(d[1..])
  }

  /** First and last position of the stars written so far; negative when there are none. */
  ghost predicate Stars(d: string, hw: int, tw: int) {
    && -1 <= hw <= tw < |d|
    && (hw < 0 ==> tw < 0)
    && (hw >= 0 ==> d[hw] == STAR && d[tw] == STAR)
    && forall t :: 0 <= t < |d| && d[t] == STAR ==> hw <= t <= tw
  }

  /** The first and the last joker. */
  ghost predicate Jokering(d: string, hj: int, tj: int) {
    && -1 <= hj <= tj < |d|
    && (hj < 0 ==> tj < 0)
    && (hj >= 0 ==> d[hj] == JOKER && d[tj] == JOKER)
    && forall t :: 0 <= t < |d| && d[t] == JOKER ==> hj <= t <= tj
  }

  /** What is recorded of the jokers: the first one, and the last one or, where the text ends in
      jokers, the first of those. */
  ghost predicate Recorded(d: string, hj: int, tj: int) {
    && -1 <= hj <= tj < |d|
    && (hj < 0 ==> tj < 0 && JOKER !in d)
    && (hj >= 0 ==> d[hj] == JOKER && d[tj] == JOKER)
    && (forall t :: 0 <= t < |d| && d[t] == JOKER ==> hj <= t)
    && (EndsInJoker(d) ==> (tj > 0 ==> d[tj - 1] != JOKER) && forall t :: 0 <= tj <= t < |d| ==> d[t] == JOKER)
    && (!EndsInJoker(d) ==> forall t :: 0 <= t < |d| && d[t] == JOKER ==> t <= tj)
  }

  predicate EndsInJoker(d: string) { d != [] && d[|d| - 1] == JOKER }

  /** The same choice for a text without a star. */
  ghost predicate JokersFromEnd(d: string) {
    exists hj, tj :: hj >= 0 && Recorded(d, hj, tj) && |d| - 1 - tj > hj
  }

  lemma {:induction false} MatchLength(p: string, s: string)
    requires Matches(p, s)
    ensures Solid(p) <= |s|
    ensures STAR !in p ==> Solid(p) == |s|
    decreases |p|, |s|
  {
    if p != [] {
      assert p == [p[0]] + p[1..];
      if p[0] == STAR {
        if Matches(p[1..], s) { MatchLength(p[1..], s); } else { MatchLength(p, s[1..]); }
      } else {
        MatchLength(p[1..], s[1..]);
      }
    }
  }

  /** string_reverse; nothing is returned for a length that is not positive. */
  method StringReverse(s: string, length: int) returns (r: Option<string>)
    requires length <= |s|
    ensures length <= 0 ==> r == None
    ensures length > 0 ==> r == Some(Reverse(s[..length]))
  {
    if length <= 0 { return None; }
    var text := new char[length](_ => NUL);
    var i := 0;
    while i < length
      invariant 0 <= i <= length
      invariant forall t :: length - i <= t < length ==> text[t] == s[length - 1 - t]
    {
      var j := length - i - 1;
      text[j] := s[i];
      i := i + 1;
    }
    assert text[..] == Reverse(s[..length]);
    return Some(text[..]);
  }

  /** What the compiler has after reading `done`: the canonical text `d`, jokers not yet
      written, and whether the last character that is not a joker was a star. */
  ghost predicate Canonical(done: string, d: string, jokers: nat, followsWildcard: bool) {
    && Equivalent(done, d + Jokers(jokers))
    && Solid(done) == Solid(d) + jokers
    && (STAR in done <==> STAR in d)
    && (followsWildcard ==> d != [] && d[|d| - 1] == STAR)
  }

  lemma EquivalentTrans(p: string, q: string, r: string)
    requires Equivalent(p, q) && Equivalent(q, r)
    ensures Equivalent(p, r)
  {}

  lemma EquivalentTail(p: string, q: string, r: string)
    requires Equivalent(p, q)
    ensures Equivalent(p + r, q + r)
  {
    hide Matches;
    EquivalentParts(p, q, r, r);
  }

  lemma EquivalentHead(p: string, q: string, r: string)
    requires Equivalent(q, r)
    ensures Equivalent(p + q, p + r)
  {
    hide Matches;
    EquivalentParts(p, p, q, r);
  }

  /** Stars and jokers in a row commute and stars merge. */
  lemma Commute(n: nat)
    ensures Equivalent(Jokers(n) + [STAR], [STAR] + Jokers(n))
    ensures Equivalent([STAR] + Jokers(n) + [STAR], [STAR] + Jokers(n))
  {
    hide Matches;
    StarJokers(n);
  }

  lemma SkipStar(done: string, d: string, n: nat)
    requires Canonical(done, d, n, true)
    ensures Canonical(done + [STAR], d, n, true)
  {
    hide Equivalent, Matches;
    var e := d[..|d| - 1];
    assert d == e + [STAR];
    EquivalentTail(done, d + Jokers(n), [STAR]);
    Commute(n);
    EquivalentHead(e, [STAR] + Jokers(n) + [STAR], [STAR] + Jokers(n));
    assert e + ([STAR] + Jokers(n) + [STAR]) == d + Jokers(n) + [STAR];
    assert e + ([STAR] + Jokers(n)) == d + Jokers(n);
    EquivalentTrans(done + [STAR], d + Jokers(n) + [STAR], d + Jokers(n));
  }

  lemma WriteStar(done: string, d: string, n: nat, f: bool)
    requires Canonical(done, d, n, f)
    ensures Canonical(done + [STAR], d + [STAR], n, true)
  {
    hide Equivalent, Matches;
    EquivalentTail(done, d + Jokers(n), [STAR]);
    Commute(n);
    EquivalentHead(d, Jokers(n) + [STAR], [STAR] + Jokers(n));
    assert d + (Jokers(n) + [STAR]) == d + Jokers(n) + [STAR];
    assert d + ([STAR] + Jokers(n)) == d + [STAR] + Jokers(n);
    EquivalentTrans(done + [STAR], d + Jokers(n) + [STAR], d + [STAR] + Jokers(n));
  }

  lemma CountJoker(done: string, d: string, n: nat, f: bool)
    requires Canonical(done, d, n, f)
    ensures Canonical(done + [JOKER], d, n + 1, f)
  {
    hide Equivalent, Matches;
    EquivalentTail(done, d + Jokers(n), [JOKER]);
    assert d + Jokers(n) + [JOKER] == d + Jokers(n + 1);
  }

  lemma WriteJoker(done: string, d: string, n: nat, f: bool)
    requires n > 0 && Canonical(done, d, n, f)
    ensures Canonical(done, d + [JOKER], n - 1, false)
  {
    hide Equivalent, Matches;
    assert d + Jokers(n) == d + [JOKER] + Jokers(n - 1);
  }

  lemma WriteLiteral(done: string, d: string, c: char, f: bool)
    requires c != STAR && c != JOKER && Canonical(done, d, 0, f)
    ensures Canonical(done + [c], d + [c], 0, false)
  {
    hide Equivalent, Matches;
    assert d + Jokers(0) == d && d + [c] + Jokers(0) == d + [c];
    EquivalentTail(done, d, [c]);
  }

  lemma StarsKept(d: string, e: string, hw: int, tw: int)
    requires Stars(d, hw, tw) && STAR !in e
    ensures Stars(d + e, hw, tw)
  {}

  lemma StarAdded(d: string, hw: int, tw: int)
    requires Stars(d, hw, tw)
    ensures Stars(d + [STAR], if hw < 0 then |d| else hw, |d|)
  {}

  lemma JokersAdded(d: string, n: nat, hj: int, tj: int)
    requires Jokering(d, hj, tj)
    ensures Jokering(d + Jokers(n), if hj < 0 && n > 0 then |d| else hj, if n == 0 then tj else |d| + n - 1)
  {}

  lemma JokersEnd(d: string, n: nat, hj: int, tj: int)
    requires Jokering(d, hj, tj) && !EndsInJoker(d)
    ensures Recorded(d + Jokers(n), if hj < 0 && n > 0 then |d| else hj, if n == 0 then tj else |d|)
  {
    assert n == 0 ==> d + Jokers(n) == d;
  }

  lemma JokersFromEndIs(d: string, hj: int, tj: int)
    requires Recorded(d, hj, tj)
    ensures -1 <= hj <= tj < |d| && (JOKER in d <==> hj >= 0)
    ensures JokersFromEnd(d) <==> hj >= 0 && |d| - 1 - tj > hj
  {
    forall h, t | Recorded(d, h, t) ensures h == hj && t == tj { RecordedOnce(d, h, t, hj, tj); }
  }

  lemma RecordedOnce(d: string, hj: int, tj: int, hj': int, tj': int)
    requires Recorded(d, hj, tj) && Recorded(d, hj', tj')
    ensures hj == hj' && tj == tj'
  {}

  lemma JokeringKept(d: string, c: char, hj: int, tj: int)
    requires Jokering(d, hj, tj) && c != JOKER
    ensures Jokering(d + [c], hj, tj)
  {}

  lemma NulFreeAdded(d: string, n: nat, c: char)
    requires NulFree(d) && c != NUL
    ensures NulFree(d + [c]) && NulFree(d + Jokers(n))
  {}

  /** How one more character changes the counters. */
  lemma Counted(done: string, c: char)
    ensures Solid(done + [c]) == Solid(done) + (if c == STAR then 0 else 1)
    ensures c == STAR ==> ByteBound(done + [c]) == ByteBound(done)
    ensures c == JOKER ==> ByteBound(done + [c]) == (ByteBound(done) + 4) % (UINT_MAX + 1)
    ensures c != STAR && c != JOKER ==> ByteBound(done + [c]) == (ByteBound(done) + 1) % (UINT_MAX + 1)
  {
    var total := Solid(done) + 3 * JokerCount(done);
    WrapAdd(total, 4);
    WrapAdd(total, 1);
  }

  lemma WrapAdd(n: nat, k: nat)
    ensures (n + k) % (UINT_MAX + 1) == (n % (UINT_MAX + 1) + k) % (UINT_MAX + 1)
  {}

  /** The loop that writes out pending jokers; the position only moves with `advance`. */
  method WriteJokers(ghost done: string, d0: string, pending: nat, hj0: int, tj0: int, i0: nat, advance: bool,
                     ghost f: bool)
    returns (d: string, hj: int, tj: int, i: nat)
    requires Canonical(done, d0, pending, f) && i0 == |d0|
    ensures d == d0 + Jokers(pending) && Canonical(done, d, 0, f && pending == 0)
    ensures hj == if hj0 < 0 && pending > 0 then |d0| else hj0
    ensures tj == if pending == 0 then tj0 else if advance then |d0| + pending - 1 else |d0|
    ensures i == if advance then |d0| + pending else i0
  {
    hide Canonical;
    d, hj, tj, i := d0, hj0, tj0, i0;
    var n := pending;
    while n > 0
      invariant 0 <= n <= pending
      invariant d == d0 + Jokers(pending - n)
      invariant Canonical(done, d, n, f && n == pending)
      invariant hj == if hj0 < 0 && n < pending then |d0| else hj0
      invariant tj == if n == pending then tj0 else if advance then |d0| + pending - n - 1 else |d0|
      invariant i == if advance then |d0| + pending - n else i0
    {
      WriteJoker(done, d, n, f && n == pending);
      d := d + [JOKER];
      if hj < 0 { hj := i; }
      tj := i;
      n := n - 1;
      if advance { i := i + 1; }
    }
  }

  lemma StartingEmpty()
    ensures Canonical("", "", 0, false) && NulFree("") && Stars("", -1, -1) && Jokering("", -1, -1)
    ensures Solid("") == 0 && ByteBound("") == 0
  {
    assert "" + Jokers(0) == "";
  }

  lemma NotNul(p: string, c: char)
    requires NulFree(p) && c in p
    ensures c != NUL
  {}

  lemma JokersStarless(d: string, n: nat, hw: int, tw: int)
    requires Stars(d, hw, tw)
    ensures Stars(d + Jokers(n), hw, tw) && |Jokers(n)| == n
  {
    StarsKept(d, Jokers(n), hw, tw);
  }

  /** The canonical form of a pattern and the statistics the choice of a match type needs. */
  method Canonicalize(p: string)
    returns (d: string, patternLength: nat, minLength: nat, maxLength: nat, hw: int, tw: int, hj: int, tj: int)
    requires NulFree(p) && Positioned(p)
    ensures Canonical(p, d, 0, false) || Canonical(p, d, 0, true)
    ensures NulFree(d) && patternLength == |d| && minLength == Solid(p) && maxLength == ByteBound(p)
    ensures Stars(d, hw, tw) && Recorded(d, hj, tj) && d == Canon(p)
  {
    hide Canonical, Stars, Jokering, Recorded, Solid, ByteBound, Jokers, NulFree, Scan;
    hw, tw, hj, tj := -1, -1, -1, -1;
    var followsWildcard, pendingJokers, k := false, 0, 0;
    var i: nat := 0;
    patternLength, minLength, maxLength, d := |p|, 0, 0, "";
    StartingEmpty();
    assert Scan(p[..0]) == ("", 0, false) by { ScanEmpty(); }
    while k < |p|
      invariant k <= |p| && i == |d| && NulFree(d) && !EndsInJoker(d)
      invariant patternLength == |d| + pendingJokers + (|p| - k)
      invariant Canonical(p[..k], d, pendingJokers, followsWildcard)
      invariant minLength == Solid(p[..k]) && maxLength == ByteBound(p[..k])
      invariant Stars(d, hw, tw) && Jokering(d, hj, tj) && Scan(p[..k]) == (d, pendingJokers, followsWildcard)
    {
      ghost var done := p[..k];
      ScanStep(p, k);
      var c := p[k];
      assert p[..k + 1] == done + [c];
      k := k + 1;
      Counted(done, c);
      NotNul(p, c);
      if c == STAR {
        if followsWildcard {
          SkipStar(done, d, pendingJokers);
          patternLength := patternLength - 1;
          continue;
        }
        WriteStar(done, d, pendingJokers, followsWildcard);
        StarAdded(d, hw, tw);
        followsWildcard := true;
        if hw < 0 { hw := i; }
        tw := i;
      } else if c == JOKER {
        CountJoker(done, d, pendingJokers, followsWildcard);
        pendingJokers := pendingJokers + 1;
        minLength := minLength + 1;
        maxLength := (maxLength + 4) % (UINT_MAX + 1);
        continue;
      } else {
        ghost var before := d;
        JokersAdded(d, pendingJokers, hj, tj);
        d, hj, tj, i := WriteJokers(done, d, pendingJokers, hj, tj, i, true, followsWildcard);
        NulFreeAdded(before, pendingJokers, c);
        JokersStarless(before, pendingJokers, hw, tw);
        WriteLiteral(done, d, c, followsWildcard && pendingJokers == 0);
        StarsKept(d, [c], hw, tw);
        pendingJokers := 0;
        followsWildcard := false;
        minLength := minLength + 1;
        maxLength := (maxLength + 1) % (UINT_MAX + 1);
      }
      NulFreeAdded(d, 0, c);
      JokeringKept(d, c, hj, tj);
      d := d + [c];
      i := i + 1;
    }
    assert p[..k] == p;
    ghost var before := d;
    JokersEnd(d, pendingJokers, hj, tj);
    d, hj, tj, i := WriteJokers(p, d, pendingJokers, hj, tj, i, false, followsWildcard);
    NulFreeAdded(before, pendingJokers, STAR);
    JokersStarless(before, pendingJokers, hw, tw);
  }

  /** g_pattern_spec_new. */
  method SpecNew(p: string) returns (spec: Spec)
    requires NulFree(p) && Positioned(p)
    ensures Compiled(p, spec) && Text(spec) == Canon(p)
    ensures spec.matchType == AllTail <==> if STAR in p then FromEnd(Canon(p)) else JokersFromEnd(Canon(p))
    ensures spec.matchType == Tail <==> TailOnly(Canon(p))
  {
    hide Equivalent, Matches, Reverse, Literal, ByteBound, Solid, Canon, FromEnd, JokersFromEnd, TailOnly, Recorded;
    var d, patternLength, minLength, maxLength, hw, tw, hj, tj := Canonicalize(p);
    FromEndIs(d, hw, tw);
    JokersFromEndIs(d, hj, tj);
    assert d + Jokers(0) == d;
    var seenJoker, seenWildcard := hj >= 0, hw >= 0;
    var moreWildcards := seenWildcard && hw != tw;
    if seenWildcard { maxLength := UINT_MAX; }
    if !seenJoker && !moreWildcards {
      if At(d, 0) == STAR {
        LiteralParts(d, 0, hw, tw);
        assert d == [STAR] + d[1..];
        SolidLiteral(d[1..]);
        return Spec(Tail, patternLength - 1, minLength, maxLength, d[1..]);
      }
      if patternLength > 0 && d[patternLength - 1] == STAR {
        LiteralParts(d, |d| - 1, hw, tw);
        assert d == d[..|d| - 1] + [STAR];
        return Spec(Head, patternLength - 1, minLength, maxLength, d[..patternLength - 1]);
      }
      if !seenWildcard {
        LiteralAll(d);
        return Spec(Exact, patternLength, minLength, maxLength, d);
      }
    }
    var tailStar, tailJoker := patternLength - 1 - tw, patternLength - 1 - tj;
    var matchType := if seenWildcard then (if tailStar > hw then AllTail else All)
                     else if tailJoker > hj then AllTail else All;
    if matchType == AllTail {
      SolidSome(d, if seenWildcard then tw + 1 else 0);
      var reversed := StringReverse(d, patternLength);
      assert d[..patternLength] == d;
      ReverseTwice(d);
      return Spec(AllTail, patternLength, minLength, maxLength, reversed.value);
    }
    return Spec(All, patternLength, minLength, maxLength, d);
  }

  lemma FromEndIs(d: string, hw: int, tw: int)
    requires Stars(d, hw, tw)
    ensures TailOnly(d) <==> JOKER !in d && hw == tw == 0
    ensures FromEnd(d) <==> hw >= 0 && |d| - 1 - tw > hw && !TailOnly(d)
  {
    if d != [] && d[0] == STAR {
      assert d == [STAR] + d[1..];
      assert forall i :: 0 <= i < |d| - 1 ==> d[1..][i] == d[i + 1];
    }
  }

  lemma LiteralAll(d: string)
    requires STAR !in d && JOKER !in d
    ensures Literal(d)
  {}

  /** With no joker and one star at `k`, both sides of it are literal. */
  lemma LiteralParts(d: string, k: nat, hw: int, tw: int)
    requires k < |d| && d[k] == STAR && Stars(d, hw, tw) && hw == tw && JOKER !in d
    ensures Literal(d[..k]) && Literal(d[k + 1..])
  {}

  lemma SolidSome(d: string, k: nat)
    requires k < |d| && d[k] != STAR
    ensures Solid(d) >= 1
  {
    assert d == d[..k] + [d[k]] + d[k + 1..];
    StarsAtMost(d[..k]);
    StarsAtMost(d[k + 1..]);
  }

  lemma SolidLiteral(p: string)
    requires Literal(p)
    ensures Solid([STAR] + p) == |p|
  {
    assert STAR !in p;
  }

  lemma StarsAtMost(d: string)
    ensures multiset(d)[STAR] <= |d|
  {}

  lemma ReverseTwice(d: string)
    ensures Reverse(Reverse(d)) == d && |Reverse(d)| == |d|
    ensures NulFree(d) ==> NulFree(Reverse(d))
  {}

  /** A 32-bit length as the signed integer string_reverse takes. */
  function Signed(n: nat): int
    requires n <= UINT_MAX
  {
    if n < INT_RANGE then n else n - (UINT_MAX + 1)
  }

  /** What each strategy answers for a string of 2^32 characters or more, whose length is
      only known modulo 2^32. */
  ghost predicate LongAnswer(p: string, spec: Spec, length: nat, s: string, reversed: bool)
    requires length <= |s|
  {
    match spec.matchType
    case All => Matches(p, s)
    case AllTail => if reversed then Matches(p, s) else Matches(p, s[..length])
    case Head => Matches(p, s) && spec.patternLength != length
    case Tail => spec.patternLength == 0
    case Exact => false
  }

  /** No strategy but the one from the end reverses the string, and only within the bounds. */
  ghost predicate Unreversible(spec: Spec, length: nat, reversed: bool) {
    spec.matchType == AllTail && !reversed && spec.minLength <= length <= spec.maxLength && length >= INT_RANGE
  }

  /** g_pattern_match: the string matches and is not longer than the compiled bound. There is
      no result when the matcher is given no string. */
  method Match(ghost p: string, spec: Spec, stringLength: nat, s: string, stringReversed: Option<string>)
    returns (r: Option<bool>)
    requires Compiled(p, spec)
    requires NulFree(s) && stringLength == |s| % (UINT_MAX + 1)
    requires stringReversed.Some? ==> stringReversed.value == Reverse(s)
    ensures r.None? <==> Unreversible(spec, stringLength, stringReversed.Some?)
    ensures r.Some? && |s| <= UINT_MAX ==> (r.value <==> Matches(p, s) && |s| <= spec.maxLength)
    ensures r.Some? && |s| > UINT_MAX ==>
              (r.value <==> spec.minLength <= stringLength <= spec.maxLength &&
                            LongAnswer(p, spec, stringLength, s, stringReversed.Some?))
  {
    hide Reverse, ByteBound, Solid, Matches;
    if Matches(p, s) { MatchLength(p, s); }
    if stringLength < spec.minLength || stringLength > spec.maxLength { return Some(false); }
    ReverseTwice(s);
    var b, dummy;
    match spec.matchType {
      case All => b, dummy := PhMatch(spec.pattern, s);
      case AllTail =>
        GlobReverse(Reverse(spec.pattern), s);
        GlobReverse(Reverse(spec.pattern), s[..stringLength]);
        ReverseTwice(spec.pattern);
        ReverseTwice(s[..stringLength]);
        if stringReversed.Some? {
          b, dummy := PhMatch(spec.pattern, stringReversed.value);
        } else {
          var tmp := StringReverse(s, Signed(stringLength));
          if tmp.None? { return None; }
          assert |s| <= UINT_MAX ==> s[..stringLength] == s;
          b, dummy := PhMatch(spec.pattern, tmp.value);
        }
      case Head =>
        HeadMatch(spec.pattern, s);
        if spec.patternLength == stringLength {
          b := spec.pattern == s;
        } else if spec.patternLength > 0 {
          b := spec.pattern <= s;
        } else {
          b := true;
        }
      case Tail =>
        TailMatch(spec.pattern, s);
        if spec.patternLength > 0 {
          b := spec.pattern == s[stringLength - spec.patternLength..];
        } else {
          b := true;
        }
      case Exact =>
        LiteralMatch(spec.pattern, s);
        if spec.patternLength != stringLength { b := false; } else { b := spec.pattern == s; }
    }
    return Some(b);
  }

  lemma HeadMatch(p: string, s: string)
    requires Literal(p)
    ensures Matches(p + [STAR], s) <==> p <= s
  {
    hide Matches;
    if Matches(p + [STAR], s) {
      var k := GlobSplit(p, [STAR], s);
      LiteralMatch(p, s[..k]);
    }
    if p <= s {
      LiteralMatch(p, s[..|p|]);
      StarAny(s[|p|..]);
      GlobJoin(p, [STAR], s, |p|);
    }
  }

  lemma TailMatch(p: string, s: string)
    requires Literal(p)
    ensures Matches([STAR] + p, s) <==> |p| <= |s| && p == s[|s| - |p|..]
  {
    hide Matches;
    if Matches([STAR] + p, s) { TailIs(p, s); }
    if |p| <= |s| && p == s[|s| - |p|..] { TailMatches(p, s, |s| - |p|); }
  }

  lemma TailIs(p: string, s: string)
    requires Literal(p) && Matches([STAR] + p, s)
    ensures |p| <= |s| && p == s[|s| - |p|..]
  {
    hide Matches;
    var k := GlobSplit([STAR], p, s);
    LiteralMatch(p, s[k..]);
    assert k == |s| - |p|;
  }

  lemma TailMatches(p: string, s: string, k: nat)
    requires Literal(p) && k <= |s| && p == s[k..]
    ensures Matches([STAR] + p, s)
  {
    hide Matches;
    LiteralMatch(p, s[k..]);
    StarAny(s[..k]);
    GlobJoin([STAR], p, s, k);
  }

  /** g_pattern_match_string on a fresh compilation: exactly glob matching up to the bound,
      for strings below 2^32 characters that need not be reversed or are below 2^31. */
  method MatchString(p: string, s: string) returns (r: Option<bool>, spec: Spec)
    requires NulFree(p) && NulFree(s) && Positioned(p)
    ensures Compiled(p, spec) && Text(spec) == Canon(p)
    ensures spec.matchType == AllTail <==> if STAR in p then FromEnd(Canon(p)) else JokersFromEnd(Canon(p))
    ensures spec.matchType == Tail <==> TailOnly(Canon(p))
    ensures r.None? <==> Unreversible(spec, |s| % (UINT_MAX + 1), false)
    ensures |s| < INT_RANGE ==> r.Some?
    ensures r.Some? && |s| <= UINT_MAX ==> (r.value <==> Matches(p, s) && (STAR in p || |s| <= ByteBound(p)))
    ensures r.Some? && |s| <= UINT_MAX && (STAR in p || |p| <= ByteBound(p)) ==> (r.value <==> Matches(p, s))
    ensures r.Some? && |s| > UINT_MAX ==>
              (r.value <==> spec.minLength <= |s| % (UINT_MAX + 1) <= spec.maxLength &&
                            LongAnswer(p, spec, |s| % (UINT_MAX + 1), s, false))
  {
    hide Matches, ByteBound, Compiled, Canon, FromEnd, JokersFromEnd, TailOnly;
    if Matches(p, s) { MatchLength(p, s); StarlessLength(p); }
    spec := SpecNew(p);
    CompiledBound(p, spec);
    r := Match(p, spec, |s| % (UINT_MAX + 1), s, None);
  }

  lemma EndsMatch(s: string, q: string, k: nat)
    requires k <= |s| && Matches(q, s[k..])
    ensures Matches([STAR] + q, s)
  {
    hide Matches;
    StarAny(s[..k]);
    GlobJoin([STAR], q, s, k);
  }

  lemma SmallMatches()
    ensures Matches("?a", "aa") && Matches("a", "a")
  {
    assert "?a"[1..] == "a" && "aa"[1..] == "a" && "a"[1..] == "";
  }

  /** "*?a" is matched from the end and "*a" by its tail. */
  lemma Samples()
    ensures Canon("*?a") == "*?a" && FromEnd("*?a")
    ensures Canon("*a") == "*a" && TailOnly("*a")
  {
    hide Scan;
    ScanEmpty();
    var p, q := "*?a", "*a";
    assert p[..0] == "" && p[..3] == p && q[..0] == "" && q[..2] == q;
    assert "" + [STAR] == "*" && "*" + Jokers(1) + ['a'] == p && "*" + Jokers(0) + ['a'] == q && p + Jokers(0) == p && q + Jokers(0) == q;
    ScanStep(p, 0);
    ScanStep(p, 1);
    ScanStep(p, 2);
    ScanStep(q, 0);
    ScanStep(q, 1);
    assert Stars(p, 0, 0) && Stars(q, 0, 0);
    FromEndIs(p, 0, 0);
    FromEndIs(q, 0, 0);
  }

  /** A pattern matched from the end and a string of 2^31 characters that it matches: there
      is no reversed string, and so no result. */
  method NullReversed() returns (s: string, r: Option<bool>)
    ensures |s| == INT_RANGE && NulFree(s) && Matches("*?a", s) && r == None
  {
    hide Matches, Reverse, ByteBound, Equivalent, Literal, Compiled, Canon, FromEnd, JokersFromEnd, TailOnly, Solid, Text, LongAnswer;
    s := seq(INT_RANGE, _ => 'a');
    assert NulFree(s);
    assert s[|s| - 2..] == "aa" && Matches("?a", "aa") by { SmallMatches(); }
    EndsMatch(s, "?a", |s| - 2);
    assert [STAR] + "?a" == "*?a";
    Samples();
    MatchLength("*?a", s);
    ShortPositioned("*?a");
    var spec;
    r, spec := MatchString("*?a", s);
    CompiledBound("*?a", spec);
  }

  /** A pattern matched by its tail and a string of 2^32 + 1 characters that it matches: the
      length is taken for 1, and the string refused. */
  method LongRefused() returns (s: string, r: Option<bool>)
    ensures |s| == UINT_MAX + 2 && NulFree(s) && Matches("*a", s) && r == Some(false)
  {
    s := seq(UINT_MAX + 2, _ => 'a');
    assert NulFree(s);
    assert s[|s| - 1..] == "a" && Matches("a", "a") by { SmallMatches(); }
    EndsMatch(s, "a", |s| - 1);
    assert [STAR] + "a" == "*a";
    Samples();
    ShortPositioned("*a");
    var spec;
    r, spec := MatchString("*a", s);
    assert |Text(spec)| == 2;
  }

  lemma StarlessLength(p: string)
    ensures STAR !in p ==> Solid(p) == |p|
  {}

  lemma CompiledBound(p: string, spec: Spec)
    requires Compiled(p, spec)
    ensures spec.maxLength == (if STAR in p then UINT_MAX else ByteBound(p))
    ensures spec.minLength == Solid(p)
  {}

  /** The bound is harmless for a pattern exactly when it has a star or the 32-bit counter
      did not wrap below the one length the pattern can match. */
  lemma BoundIsHarmless(p: string)
    ensures (forall s | |s| <= UINT_MAX :: Matches(p, s) ==> STAR in p || |s| <= ByteBound(p)) <==>
            STAR in p || |p| > UINT_MAX || |p| <= ByteBound(p)
  {
    hide ByteBound;
    if STAR !in p {
      var s := SampleString(p);
      forall t | Matches(p, t) ensures |t| == |p| { MatchLength(p, t); }
      assert Matches(p, s) && |s| == |p|;
    }
  }

  /** Some string a starless pattern matches. */
  lemma {:induction false} SampleString(p: string) returns (s: string)
    requires STAR !in p
    ensures Matches(p, s) && |s| == |p|
  {
    s := [];
    if p != [] {
      var t := SampleString(p[1..]);
      s := [p[0]] + t;
      assert s[1..] == t;
    }
  }

  /** No wrap below 2^30 characters: there the compiled matcher is glob matching. */
  lemma ShortPatterns(p: string)
    requires 4 * |p| <= UINT_MAX
    ensures STAR in p || |p| <= ByteBound(p)
  {
    if STAR !in p {
      JokersAtMost(p);
    }
  }

  lemma JokersAtMost(p: string)
    ensures multiset(p)[JOKER] <= |p|
  {}

  /** 2^30 jokers match a string of that length, and the compiled matcher refuses it. */
  lemma WrappedBound()
    ensures var p := Jokers(0x4000_0000);
            |p| == 0x4000_0000 && Matches(p, p) && STAR !in p && |p| > ByteBound(p)
  {
    var n := 0x4000_0000;
    JokersMatch(n, Jokers(n));
    AllJokers(n);
  }

  lemma {:induction false} AllJokers(n: nat)
    ensures multiset(Jokers(n))[JOKER] == n && multiset(Jokers(n))[STAR] == 0
  {
    if n > 0 {
      AllJokers(n - 1);
      assert Jokers(n) == Jokers(n - 1) + [JOKER];
    }
  }
}
