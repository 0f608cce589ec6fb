/** Subjects and subject patterns: token sequences separated by dots, where `*` stands for one
    token and `>` for one or more. What a pattern matches, and what the scans of
    `validate.rs` and `subject.rs` decide about patterns. */
module SubjectModel {
  import opened Machine

  const DOT: byte := 46
  const STAR: seq<byte> := [42]
  const GT: seq<byte> := [62]

  type Bytes = seq<byte>
  type Token = seq<byte>

  // ---------------------------------------------------------------------------
  // Tokens
  // ---------------------------------------------------------------------------

  /** The index of the first dot, or the length when there is none. */
  function FirstDot(s: Bytes): (i: nat)
    ensures i <= |s| && DOT !in s[..i]
    ensures i < |s| ==> s[i] == DOT
  {
    if s == [] || s[0] == DOT then 0
    else
      var i := 1 + FirstDot(s[1..]);
      assert s[..i] == [s[0]] + s[1..][..i - 1];
      i
  }

  /** The engine's `next_token`: the first token and what follows the dot. */
  function NextToken(s: Bytes): (r: (Token, Bytes))
    ensures |r.0| + |r.1| <= |s|
    ensures r.0 != [] ==> |r.1| < |s|
  {
    var i := FirstDot(s);
    if i == |s| then (s, []) else (s[..i], s[i + 1..])
  }

  /** `slice::split` on dots: always at least one token. */
  function Split(s: Bytes): (ts: seq<Token>)
    ensures |ts| > 0
    decreases |s|
  {
    var i := FirstDot(s);
    if i == |s| then [s] else [s[..i]] + Split(s[i + 1..])
  }

  /** A pattern whose tokens are all non-empty. */
  predicate WellFormed(p: Bytes) {
    forall i | 0 <= i < |Split(p)| :: Split(p)[i] != []
  }

  /** The tokens of a subject as the engine reads them: dots at the very end are dropped. */
  function SubjectTokens(s: Bytes): seq<Token>
    decreases |s|
  {
    var (tok, rest) := NextToken(s);
    if tok == [] && rest == [] then [] else [tok] + SubjectTokens(rest)
  }

  function Join(ts: seq<Token>): Bytes {
    if ts == [] then [] else if |ts| == 1 then ts[0] else ts[0] + [DOT] + Join(ts[1..])
  }

  /** Non-empty tokens without dots. */
  predicate Proper(ts: seq<Token>) {
    forall i | 0 <= i < |ts| :: ts[i] != [] && DOT !in ts[i]
  }

  /** No token is a wildcard. */
  predicate Concrete(ts: seq<Token>) {
    forall i | 0 <= i < |ts| :: ts[i] != STAR && ts[i] != GT
  }

  lemma {:induction false} FirstDotAfter(t: Token, s: Bytes)
    requires DOT !in t
    ensures FirstDot(t + [DOT] + s) == |t|
    ensures FirstDot(t) == |t|
  {
    if t != [] {
      FirstDotAfter(t[1..], s);
      assert (t + [DOT] + s)[1..] == t[1..] + [DOT] + s;
    }
  }

  /** Joining proper tokens loses nothing. */
  lemma {:induction false} JoinRoundTrip(ts: seq<Token>)
    requires Proper(ts)
    ensures SubjectTokens(Join(ts)) == ts
    ensures ts != [] ==> Split(Join(ts)) == ts
  {
    hide SubjectTokens, Split;
    if ts == [] {
      NoTokens();
    } else if |ts| == 1 {
      LastTokenIs(ts[0]);
    } else {
      JoinRoundTrip(ts[1..]);
      FirstTokenIs(ts[0], Join(ts[1..]));
    }
  }

  lemma NoTokens()
    ensures SubjectTokens([]) == []
  {
  }

  lemma LastTokenIs(t: Token)
    requires t != [] && DOT !in t
    ensures SubjectTokens(t) == [t] && Split(t) == [t]
  {
    FirstDotAfter(t, []);
    NoTokens();
  }

  lemma FirstTokenIs(t: Token, rest: Bytes)
    requires t != [] && DOT !in t
    ensures NextToken(t + [DOT] + rest) == (t, rest)
    ensures SubjectTokens(t + [DOT] + rest) == [t] + SubjectTokens(rest)
    ensures Split(t + [DOT] + rest) == [t] + Split(rest)
  {
    FirstDotAfter(t, rest);
    var s := t + [DOT] + rest;
    assert s[..|t|] == t && s[|t| + 1..] == rest;
  }

  lemma {:induction false} SplitIsDotFree(s: Bytes)
    ensures forall i | 0 <= i < |Split(s)| :: DOT !in Split(s)[i]
    decreases |s|
  {
    var i := FirstDot(s);
    if i < |s| {
      SplitIsDotFree(s[i + 1..]);
    }
  }

  lemma WellFormedIsProper(p: Bytes)
    requires WellFormed(p)
    ensures Proper(Split(p))
  {
    SplitIsDotFree(p);
  }

  lemma SplitUnfolds(p: Bytes)
    requires WellFormed(p)
    ensures p != [] && NextToken(p).0 == Split(p)[0] != []
    ensures NextToken(p).1 == [] <==> |Split(p)| == 1
    ensures NextToken(p).1 != [] ==> WellFormed(NextToken(p).1) && Split(NextToken(p).1) == Split(p)[1..]
  {
    var i := FirstDot(p);
    assert Split(p)[0] != [];
    if i < |p| {
      var rest := p[i + 1..];
      assert Split(p)[1..] == Split(rest);
      forall j | 0 <= j < |Split(rest)| ensures Split(rest)[j] != [] {
        assert Split(rest)[j] == Split(p)[j + 1];
      }
      assert Split(rest)[0] != [];
    }
  }

  // ---------------------------------------------------------------------------
  // What patterns mean
  // ---------------------------------------------------------------------------

  /** The pattern `p` matches the subject `s`, token by token. */
  predicate Matches(p: seq<Token>, s: seq<Token>) {
    if p == [] then s == []
    else if s == [] || s[0] == [] then false
    else if p[0] == GT then true
    else (p[0] == STAR || p[0] == s[0]) && Matches(p[1..], s[1..])
  }

  /** The scan for a shared subject. */
  predicate Overlap(a: seq<Token>, b: seq<Token>) {
    if a == [] || b == [] then a == b
    else if a[0] == GT || b[0] == GT then true
    else (a[0] == STAR || b[0] == STAR || a[0] == b[0]) && Overlap(a[1..], b[1..])
  }

  /** The scan for inclusion. */
  predicate Covers(wide: seq<Token>, narrow: seq<Token>) {
    if wide == [] || narrow == [] then wide == narrow
    else if wide[0] == GT then true
    else if narrow[0] == GT then false
    else (wide[0] == STAR || wide[0] == narrow[0]) && Covers(wide[1..], narrow[1..])
  }

  const X: Token := [120]

  /** Some concrete subject `p` matches: each wildcard read as one token `x`. */
  function Instance(p: seq<Token>): (s: seq<Token>)
    requires Proper(p)
    ensures Proper(s) && Concrete(s) && Matches(p, s) && (p != [] ==> s != [])
  {
    if p == [] then []
    else if p[0] == GT then [X]
    else
      var rest := Instance(p[1..]);
      var s := [if p[0] == STAR then X else p[0]] + rest;
      assert s[1..] == rest;
      s
  }

  /** A concrete subject two overlapping patterns share. */
  function Shared(a: seq<Token>, b: seq<Token>): (s: seq<Token>)
    requires Proper(a) && Proper(b) && Overlap(a, b)
    ensures Proper(s) && Concrete(s) && Matches(a, s) && Matches(b, s)
  {
    if a == [] then []
    else if a[0] == GT then Instance(b)
    else if b[0] == GT then Instance(a)
    else
      var rest := Shared(a[1..], b[1..]);
      var s := [if a[0] != STAR then a[0] else if b[0] != STAR then b[0] else X] + rest;
      assert s[1..] == rest;
      s
  }

  lemma {:induction false} SharedSubjectOverlaps(a: seq<Token>, b: seq<Token>, s: seq<Token>)
    requires Matches(a, s) && Matches(b, s)
    ensures Overlap(a, b)
  {
    if a != [] && b != [] && a[0] != GT && b[0] != GT {
      SharedSubjectOverlaps(a[1..], b[1..], s[1..]);
    }
  }

  lemma {:induction false} OverlapIsSymmetric(a: seq<Token>, b: seq<Token>)
    ensures Overlap(a, b) <==> Overlap(b, a)
  {
    if a != [] && b != [] {
      OverlapIsSymmetric(a[1..], b[1..]);
    }
  }

  lemma {:induction false} CoversIsSound(wide: seq<Token>, narrow: seq<Token>, s: seq<Token>)
    requires Covers(wide, narrow) && Matches(narrow, s)
    ensures Matches(wide, s)
  {
    if wide != [] && wide[0] != GT {
      CoversIsSound(wide[1..], narrow[1..], s[1..]);
    }
  }

  /** A concrete subject inside `narrow` and outside `wide`. */
  function Escape(wide: seq<Token>, narrow: seq<Token>): (s: seq<Token>)
    requires Proper(wide) && Proper(narrow) && !Covers(wide, narrow)
    ensures Proper(s) && Concrete(s) && Matches(narrow, s) && !Matches(wide, s)
  {
    if wide == [] then Instance(narrow)
    else if narrow == [] then []
    else if narrow[0] == GT then
      if |wide| == 1 then assert [X, X][1..] == [X]; [X, X] else [X]
    else if wide[0] != STAR && wide[0] != narrow[0] then
      var s := [if narrow[0] == STAR then wide[0] + X else narrow[0]] + Instance(narrow[1..]);
      assert s[1..] == Instance(narrow[1..]);
      s
    else
      var s := [if narrow[0] == STAR then X else narrow[0]] + Escape(wide[1..], narrow[1..]);
      assert s[1..] == Escape(wide[1..], narrow[1..]);
      s
  }

  // ---------------------------------------------------------------------------
  // The engine's scans over bytes
  // ---------------------------------------------------------------------------

  /** `subject_matches`: both inputs consumed one token at a time, for any bytes. */
  predicate MatchesBytes(p: Bytes, s: Bytes)
    decreases |p|
  {
    var (pt, pr) := NextToken(p);
    var (st, sr) := NextToken(s);
    if pt == GT && st != [] then true
    else if pt == STAR && st != [] then MatchesBytes(pr, sr)
    else if pt == st && pt != [] then MatchesBytes(pr, sr)
    else pt == [] && st == [] && pr == [] && sr == []
  }

  /** `subjects_overlap` of the engine. */
  predicate OverlapBytes(a: Bytes, b: Bytes)
    decreases |a| + |b|
  {
    var (at, ar) := NextToken(a);
    var (bt, br) := NextToken(b);
    if (at == GT && bt != []) || (bt == GT && at != []) then true
    else if (at == STAR && bt != []) || (bt == STAR && at != []) then OverlapBytes(ar, br)
    else if at == bt && at != [] then OverlapBytes(ar, br)
    else at == [] && bt == [] && ar == [] && br == []
  }

  /** `subject_covers`. */
  predicate CoversBytes(wide: Bytes, narrow: Bytes)
    decreases |wide|
  {
    var (wt, wr) := NextToken(wide);
    var (nt, nr) := NextToken(narrow);
    if wt == GT && nt != [] then true
    else if nt == GT then false
    else if wt == STAR && nt != [] then CoversBytes(wr, nr)
    else if wt == nt && wt != [] then CoversBytes(wr, nr)
    else wt == [] && nt == [] && wr == [] && nr == []
  }

  lemma EndOfPattern(s: Bytes)
    ensures MatchesBytes([], s) <==> SubjectTokens(s) == []
  {
  }

  /** On a well-formed pattern the byte scan is matching, for any subject bytes at all. */
  lemma {:induction false} MatchesIsExact(p: Bytes, s: Bytes)
    requires WellFormed(p)
    ensures MatchesBytes(p, s) <==> Matches(Split(p), SubjectTokens(s))
    decreases |p|
  {
    SplitUnfolds(p);
    var (pt, pr) := NextToken(p);
    var (st, sr) := NextToken(s);
    if st != [] {
      assert SubjectTokens(s)[1..] == SubjectTokens(sr);
      if pr == [] {
        EndOfPattern(sr);
        assert Split(p)[1..] == [];
      } else {
        MatchesIsExact(pr, sr);
      }
    }
  }

  lemma {:induction false} OverlapAgrees(a: Bytes, b: Bytes)
    requires WellFormed(a) && WellFormed(b)
    ensures OverlapBytes(a, b) <==> Overlap(Split(a), Split(b))
    decreases |a| + |b|
  {
    SplitUnfolds(a);
    SplitUnfolds(b);
    var (at, ar) := NextToken(a);
    var (bt, br) := NextToken(b);
    if ar != [] && br != [] {
      OverlapAgrees(ar, br);
    } else {
      assert ar == [] ==> Split(a)[1..] == [];
      assert br == [] ==> Split(b)[1..] == [];
      EndOfOverlap(ar, br);
    }
  }

  lemma EndOfOverlap(a: Bytes, b: Bytes)
    requires a == [] || WellFormed(a)
    requires b == [] || WellFormed(b)
    requires a == [] || b == []
    ensures OverlapBytes(a, b) <==> a == b
    ensures CoversBytes(a, b) <==> a == b
  {
    if a != [] {
      SplitUnfolds(a);
    }
    if b != [] {
      SplitUnfolds(b);
    }
  }

  lemma {:induction false} CoversAgrees(wide: Bytes, narrow: Bytes)
    requires WellFormed(wide) && WellFormed(narrow)
    ensures CoversBytes(wide, narrow) <==> Covers(Split(wide), Split(narrow))
    decreases |wide|
  {
    SplitUnfolds(wide);
    SplitUnfolds(narrow);
    var (wt, wr) := NextToken(wide);
    var (nt, nr) := NextToken(narrow);
    if wr != [] && nr != [] {
      CoversAgrees(wr, nr);
    } else {
      assert wr == [] ==> Split(wide)[1..] == [];
      assert nr == [] ==> Split(narrow)[1..] == [];
      EndOfOverlap(wr, nr);
    }
  }

  /** Some subject, of any length, matches both patterns. */
  ghost predicate ShareSubject(a: Bytes, b: Bytes) {
    exists s: Bytes :: MatchesBytes(a, s) && MatchesBytes(b, s)
  }

  /** Some concrete subject, of any length, matches both patterns. */
  ghost predicate ShareConcrete(a: Bytes, b: Bytes) {
    exists s: Bytes :: MatchesBytes(a, s) && MatchesBytes(b, s) && Concrete(SubjectTokens(s))
  }

  /** The overlap scan is exact: when it succeeds some concrete subject matches both patterns, and
      when it fails no bytes at all do. */
  lemma OverlapIsExact(a: Bytes, b: Bytes)
    requires WellFormed(a) && WellFormed(b)
    ensures OverlapBytes(a, b) <==> ShareConcrete(a, b)
    ensures OverlapBytes(a, b) <==> ShareSubject(a, b)
  {
    OverlapAgrees(a, b);
    WellFormedIsProper(a);
    WellFormedIsProper(b);
    if OverlapBytes(a, b) {
      var ts := Shared(Split(a), Split(b));
      JoinRoundTrip(ts);
      MatchesIsExact(a, Join(ts));
      MatchesIsExact(b, Join(ts));
    }
    if s: Bytes :| MatchesBytes(a, s) && MatchesBytes(b, s) {
      MatchesIsExact(a, s);
      MatchesIsExact(b, s);
      SharedSubjectOverlaps(Split(a), Split(b), SubjectTokens(s));
    }
  }

  /** The inclusion scan is exact: it succeeds if and only if every subject of `narrow` is one of
      `wide`, and concrete subjects are enough to tell. */
  lemma CoversIsExact(wide: Bytes, narrow: Bytes)
    requires WellFormed(wide) && WellFormed(narrow)
    ensures CoversBytes(wide, narrow) <==> forall s: Bytes :: MatchesBytes(narrow, s) ==> MatchesBytes(wide, s)
    ensures CoversBytes(wide, narrow) <==>
              forall s: Bytes | Concrete(SubjectTokens(s)) :: MatchesBytes(narrow, s) ==> MatchesBytes(wide, s)
  {
    CoversAgrees(wide, narrow);
    WellFormedIsProper(wide);
    WellFormedIsProper(narrow);
    if CoversBytes(wide, narrow) {
      forall s: Bytes | MatchesBytes(narrow, s) ensures MatchesBytes(wide, s) {
        MatchesIsExact(narrow, s);
        MatchesIsExact(wide, s);
        CoversIsSound(Split(wide), Split(narrow), SubjectTokens(s));
      }
    } else {
      var ts := Escape(Split(wide), Split(narrow));
      JoinRoundTrip(ts);
      MatchesIsExact(narrow, Join(ts));
      MatchesIsExact(wide, Join(ts));
    }
  }

  /** `strictly_nested` holds exactly when the subjects of `narrow` are a proper subset. */
  lemma StrictlyNestedIsProperSubset(narrow: Bytes, wide: Bytes)
    requires WellFormed(wide) && WellFormed(narrow)
    ensures CoversBytes(wide, narrow) && !CoversBytes(narrow, wide)
       <==> (forall s: Bytes :: MatchesBytes(narrow, s) ==> MatchesBytes(wide, s))
            && (exists s: Bytes :: MatchesBytes(wide, s) && !MatchesBytes(narrow, s))
  {
    CoversIsExact(wide, narrow);
    CoversIsExact(narrow, wide);
  }
}
