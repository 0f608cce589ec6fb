/** The subject scans of `validate.rs` and of the engine's `subject.rs`, as loops. */
module Subjects {
  import opened Machine
  import opened SubjectModel

  const MAX_LEN: nat := 255
  const STAR_BYTE: byte := 42
  const GT_BYTE: byte := 62

  datatype ValidateError = Empty | TooLong | InvalidChar(b: byte)

  datatype Verdict = Accepted | Rejected(error: ValidateError)

  // ---------------------------------------------------------------------------
  // Validation
  // ---------------------------------------------------------------------------

  predicate NameByte(b: byte) {
    97 <= b <= 122 || 65 <= b <= 90 || 48 <= b <= 57 || b == 95 || b == 45
  }

  predicate SubjectByte(b: byte) {
    NameByte(b) || b == DOT || b == STAR_BYTE || b == GT_BYTE
  }

  /** `b` is the first byte of `s` that `ok` refuses. */
  ghost predicate FirstBad(s: Bytes, ok: byte -> bool, b: byte) {
    exists i :: 0 <= i < |s| && s[i] == b && !ok(b) && forall j | 0 <= j < i :: ok(s[j])
  }

  method CheckBytes(s: Bytes, ok: byte -> bool) returns (r: Verdict)
    ensures r.Accepted? <==> forall i | 0 <= i < |s| :: ok(s[i])
    ensures r.Rejected? ==> r.error.InvalidChar? && FirstBad(s, ok, r.error.b)
  {
    for i := 0 to |s|
      invariant forall j | 0 <= j < i :: ok(s[j])
    {
      if !ok(s[i]) {
        return Rejected(InvalidChar(s[i]));
      }
    }
    return Accepted;
  }

  /** One to 255 bytes, all of them allowed in names. */
  predicate ValidName(name: Bytes) {
    1 <= |name| <= MAX_LEN && forall i | 0 <= i < |name| :: NameByte(name[i])
  }

  /** Names: 1 to 255 bytes of letters, digits, `_` and `-`; otherwise the first thing wrong. */
  method ValidateName(name: Bytes) returns (r: Verdict)
    ensures r.Accepted? <==> ValidName(name)
    ensures r == Rejected(Empty) <==> name == []
    ensures r == Rejected(TooLong) <==> |name| > MAX_LEN
    ensures r.Rejected? && r.error.InvalidChar? ==> FirstBad(name, NameByte, r.error.b)
  {
    if |name| == 0 {
      return Rejected(Empty);
    }
    if |name| > MAX_LEN {
      return Rejected(TooLong);
    }
    r := CheckBytes(name, NameByte);
  }

  /** What is wrong with a token on its own. */
  function TokenFault(t: Token): Option<byte> {
    if t == [] then Some(DOT)
    else if STAR_BYTE in t && |t| > 1 then Some(STAR_BYTE)
    else if GT_BYTE in t && |t| > 1 then Some(GT_BYTE)
    else None
  }

  /** The first fault among tokens, if any. */
  function FirstFault(ts: seq<Token>): Option<byte> {
    if ts == [] then None
    else if TokenFault(ts[0]).Some? then TokenFault(ts[0])
    else FirstFault(ts[1..])
  }

  /** Everything `validate_subject` asks for. */
  ghost predicate Acceptable(s: Bytes) {
    && 1 <= |s| <= MAX_LEN
    && (forall i | 0 <= i < |s| :: SubjectByte(s[i]))
    && (forall i | 0 <= i < |Split(s)| :: TokenFault(Split(s)[i]).None?)
    && (GT_BYTE in s ==> Split(s)[|Split(s)| - 1] == GT)
  }

  /** `*` and `>` occur in a token only as the whole of it. */
  predicate StandsAlone(t: Token) {
    (STAR_BYTE in t ==> t == STAR) && (GT_BYTE in t ==> t == GT)
  }

  predicate SoundToken(t: Token) {
    t != [] && StandsAlone(t)
  }

  /** Token `t` is refused with byte `b`: a dot when it is empty, else the wildcard that does not stand
      alone in it, `*` before `>`. */
  predicate Offends(t: Token, b: byte) {
    || (t == [] && b == DOT)
    || (STAR_BYTE in t && t != STAR && b == STAR_BYTE)
    || (STAR_BYTE !in t && GT_BYTE in t && t != GT && b == GT_BYTE)
  }

  /** Some token is refused with `b`, and all before it are sound. */
  ghost predicate FirstOffence(ts: seq<Token>, b: byte) {
    exists n :: 0 <= n < |ts| && Offends(ts[n], b) && forall m | 0 <= m < n :: SoundToken(ts[m])
  }

  lemma TokenFaultMeans(t: Token)
    ensures TokenFault(t).None? <==> SoundToken(t)
    ensures TokenFault(t).Some? ==> Offends(t, TokenFault(t).value)
  {
    if |t| == 1 {
      assert t == [t[0]];
    }
  }

  lemma {:induction false} FirstFaultMeans(ts: seq<Token>)
    ensures FirstFault(ts).None? <==> forall i | 0 <= i < |ts| :: SoundToken(ts[i])
    ensures FirstFault(ts).Some? ==> FirstOffence(ts, FirstFault(ts).value)
  {
    hide TokenFault, SoundToken, Offends;
    if ts != [] {
      TokenFaultMeans(ts[0]);
      FirstFaultMeans(ts[1..]);
      assert forall i | 1 <= i < |ts| :: ts[i] == ts[1..][i - 1];
      if TokenFault(ts[0]).None? && FirstFault(ts).Some? {
        var b := FirstFault(ts).value;
        var n :| 0 <= n < |ts[1..]| && Offends(ts[1..][n], b) && forall m | 0 <= m < n :: SoundToken(ts[1..][m]);
        assert Offends(ts[n + 1], b);
      }
    }
  }

  /** The documented rules, token by token, but for `>` being last wherever it occurs. */
  ghost predicate ByTheRules(s: Bytes) {
    && 1 <= |s| <= MAX_LEN
    && (forall i | 0 <= i < |s| :: SubjectByte(s[i]))
    && (forall i | 0 <= i < |Split(s)| :: SoundToken(Split(s)[i]))
    && (GT_BYTE in s ==> Split(s)[|Split(s)| - 1] == GT)
  }

  /** What is accepted: tokens are non-empty and a wildcard is the whole of its token. */
  lemma AcceptableMeans(s: Bytes)
    ensures Acceptable(s) <==> ByTheRules(s)
  {
    hide TokenFault, SoundToken;
    forall i | 0 <= i < |Split(s)| ensures TokenFault(Split(s)[i]).None? <==> SoundToken(Split(s)[i]) {
      TokenFaultMeans(Split(s)[i]);
    }
  }

  lemma {:induction false} FaultFree(ts: seq<Token>)
    ensures FirstFault(ts).None? <==> forall i | 0 <= i < |ts| :: TokenFault(ts[i]).None?
  {
    if ts != [] {
      FaultFree(ts[1..]);
      assert forall i | 1 <= i < |ts| :: ts[i] == ts[1..][i - 1];
    }
  }

  /** Rust's `Split` iterator: what is left, or nothing at all. */
  datatype TokenIter = Done | More(rest: Bytes)

  function Remaining(it: TokenIter): seq<Token> {
    match it
    case Done => []
    case More(rest) => Split(rest)
  }

  /** `next()` takes the first remaining token. */
  method Next(it: TokenIter) returns (t: Option<Token>, it': TokenIter)
    ensures t.None? <==> Remaining(it) == []
    ensures t.None? ==> it' == it
    ensures t.Some? ==> Remaining(it) == [t.value] + Remaining(it')
  {
    match it
    case Done => return None, it;
    case More(rest) =>
      var i := FirstDot(rest);
      if i == |rest| {
        return Some(rest), Done;
      }
      return Some(rest[..i]), More(rest[i + 1..]);
  }

  lemma NoFault()
    ensures FirstFault([]) == None
  {
  }

  lemma FaultStep(t: Token, rest: seq<Token>)
    ensures FirstFault([t] + rest) == if TokenFault(t).Some? then TokenFault(t) else FirstFault(rest)
  {
    assert ([t] + rest)[1..] == rest;
  }

  /** The token loop: the first fault, or the last token. */
  method CheckTokens(s: Bytes) returns (fault: Option<byte>, lastToken: Token)
    ensures fault == FirstFault(Split(s))
    ensures fault.None? ==> lastToken == Split(s)[|Split(s)| - 1]
    ensures fault.None? <==> forall i | 0 <= i < |Split(s)| :: SoundToken(Split(s)[i])
    ensures fault.Some? ==> FirstOffence(Split(s), fault.value)
  {
    hide Split, TokenFault, FirstFault, SoundToken, FirstOffence;
    FirstFaultMeans(Split(s));
    NoFault();
    var it := More(s);
    lastToken := [];
    ghost var seen: seq<Token> := [];
    while true
      invariant Split(s) == seen + Remaining(it)
      invariant FirstFault(Split(s)) == FirstFault(Remaining(it))
      invariant seen != [] ==> lastToken == seen[|seen| - 1]
      decreases |Remaining(it)|
    {
      var t, rest := Next(it);
      if t.None? {
        return None, lastToken;
      }
      FaultStep(t.value, Remaining(rest));
      if TokenFault(t.value).Some? {
        return TokenFault(t.value), lastToken;
      }
      assert seen + ([t.value] + Remaining(rest)) == seen + [t.value] + Remaining(rest);
      seen := seen + [t.value];
      lastToken := t.value;
      it := rest;
    }
  }

  /** The byte a subject is refused for: its first byte that is not allowed, else that of its first token
      that is not sound, else `>` because the last token is not `>`. */
  ghost predicate RefusedFor(s: Bytes, b: byte) {
    if exists i :: 0 <= i < |s| && !SubjectByte(s[i]) then FirstBad(s, SubjectByte, b)
    else if exists i :: 0 <= i < |Split(s)| && !SoundToken(Split(s)[i]) then FirstOffence(Split(s), b)
    else b == GT_BYTE && GT_BYTE in s && Split(s)[|Split(s)| - 1] != GT
  }

  /** Subjects: the rules in order, and the first that fails. */
  method ValidateSubject(subject: Bytes) returns (r: Verdict)
    ensures r.Accepted? <==> Acceptable(subject)
    ensures r == Rejected(Empty) <==> subject == []
    ensures r == Rejected(TooLong) <==> |subject| > MAX_LEN
    ensures r.Accepted? <==> ByTheRules(subject)
    ensures r.Rejected? && r.error.InvalidChar? ==> RefusedFor(subject, r.error.b)
  {
    hide TokenFault, FirstFault, Split, SoundToken, FirstOffence;
    AcceptableMeans(subject);
    if |subject| == 0 {
      return Rejected(Empty);
    }
    if |subject| > MAX_LEN {
      return Rejected(TooLong);
    }
    r := CheckBytes(subject, SubjectByte);
    if r.Rejected? {
      return;
    }
    FaultFree(Split(subject));
    var fault, lastToken := CheckTokens(subject);
    if fault.Some? {
      return Rejected(InvalidChar(fault.value));
    }
    if GT_BYTE in subject && lastToken != GT {
      return Rejected(InvalidChar(GT_BYTE));
    }
    return Accepted;
  }

  lemma AcceptableIsWellFormed(s: Bytes)
    requires Acceptable(s)
    ensures WellFormed(s)
  {
    forall i | 0 <= i < |Split(s)| ensures Split(s)[i] != [] {
      assert TokenFault(Split(s)[i]).None?;
    }
  }

  // ---------------------------------------------------------------------------
  // `>` only as the last token
  // ---------------------------------------------------------------------------

  /** The documented rule: `>` is the last token wherever it occurs. */
  ghost predicate GtOnlyLast(s: Bytes) {
    forall i | 0 <= i < |Split(s)| - 1 :: Split(s)[i] != GT
  }

  function Occurrences(s: Bytes, b: byte): nat {
    if s == [] then 0 else Occurrences(s[..|s| - 1], b) + if s[|s| - 1] == b then 1 else 0
  }

  lemma {:induction false} OccurrencesAppend(s: Bytes, t: Bytes, b: byte)
    ensures Occurrences(s + t, b) == Occurrences(s, b) + Occurrences(t, b)
    decreases |t|
  {
    if t == [] {
      assert s + t == s;
    } else {
      OccurrencesAppend(s, t[..|t| - 1], b);
      assert (s + t)[..|s + t| - 1] == s + t[..|t| - 1];
    }
  }

  lemma {:induction false} OccurrencesIn(s: Bytes, b: byte)
    ensures Occurrences(s, b) > 0 <==> b in s
  {
    if s != [] {
      OccurrencesIn(s[..|s| - 1], b);
      assert s == s[..|s| - 1] + [s[|s| - 1]];
    }
  }

  function GtTokens(ts: seq<Token>): nat {
    if ts == [] then 0 else (if ts[0] == GT then 1 else 0) + GtTokens(ts[1..])
  }

  /** With every token sound on its own, the `>` bytes are the `>` tokens. */
  lemma {:induction false} GtBytesAreTokens(s: Bytes)
    requires forall i | 0 <= i < |Split(s)| :: TokenFault(Split(s)[i]).None?
    ensures Occurrences(s, GT_BYTE) == GtTokens(Split(s))
    decreases |s|
  {
    var i := FirstDot(s);
    OneToken(Split(s)[0]);
    if i < |s| {
      var rest := s[i + 1..];
      assert Split(s)[1..] == Split(rest);
      forall j | 0 <= j < |Split(rest)| ensures TokenFault(Split(rest)[j]).None? {
        assert Split(rest)[j] == Split(s)[j + 1];
      }
      GtBytesAreTokens(rest);
      assert s == (s[..i] + [DOT]) + rest;
      OccurrencesAppend(s[..i] + [DOT], rest, GT_BYTE);
      OccurrencesAppend(s[..i], [DOT], GT_BYTE);
      assert Occurrences([DOT], GT_BYTE) == 0;
    } else {
      assert Split(s)[1..] == [];
    }
  }

  lemma OneToken(t: Token)
    requires TokenFault(t).None?
    ensures Occurrences(t, GT_BYTE) == if t == GT then 1 else 0
  {
    OccurrencesIn(t, GT_BYTE);
    if |t| == 1 {
      assert t[..0] == [] && t == [t[0]];
    }
  }

  lemma {:induction false} GtTokensCount(ts: seq<Token>)
    requires ts != []
    ensures GtTokens(ts) == 0 ==> forall i | 0 <= i < |ts| :: ts[i] != GT
    ensures ts[|ts| - 1] == GT ==> (GtTokens(ts) <= 1 <==> forall i | 0 <= i < |ts| - 1 :: ts[i] != GT)
    ensures ts[|ts| - 1] == GT ==> GtTokens(ts) >= 1
  {
    if |ts| == 1 {
      assert ts[1..] == [];
    } else {
      GtTokensCount(ts[1..]);
      assert forall i | 1 <= i < |ts| :: ts[i] == ts[1..][i - 1];
    }
  }

  /** `validate_subject` accepts some subjects with `>` before the end, `>.>` for one. */
  lemma AcceptsGtBeforeEnd()
    ensures Acceptable([GT_BYTE, DOT, GT_BYTE]) && !GtOnlyLast([GT_BYTE, DOT, GT_BYTE])
  {
    var s := [GT_BYTE, DOT, GT_BYTE];
    assert FirstDot(s) == 1;
    assert s[..1] == GT && s[2..] == GT;
    assert FirstDot(GT) == 1;
    assert Split(GT) == [GT];
    assert Split(s) == [GT, GT];
    assert Split(s)[0] == GT;
  }

  /** Exactly when an accepted subject keeps the documented rule: `>` occurs at most once. */
  lemma AcceptedKeepsGtRule(s: Bytes)
    requires Acceptable(s)
    ensures GtOnlyLast(s) <==> Occurrences(s, GT_BYTE) <= 1
  {
    GtBytesAreTokens(s);
    GtTokensCount(Split(s));
    OccurrencesIn(s, GT_BYTE);
  }

  // ---------------------------------------------------------------------------
  // Overlap, matching and inclusion
  // ---------------------------------------------------------------------------

  /** `subjects_overlap` of `validate.rs`, over two token iterators: for any bytes. */
  method SubjectsOverlap(a: Bytes, b: Bytes) returns (r: bool)
    ensures r <==> Overlap(Split(a), Split(b))
    ensures WellFormed(a) && WellFormed(b) ==> (r <==> ShareConcrete(a, b)) && (r <==> ShareSubject(a, b))
  {
    if WellFormed(a) && WellFormed(b) {
      OverlapIsExact(a, b);
      OverlapAgrees(a, b);
    }
    hide Split, MatchesBytes, OverlapBytes, ShareConcrete, ShareSubject;
    var ai, bi := More(a), More(b);
    while true
      invariant Overlap(Split(a), Split(b)) <==> Overlap(Remaining(ai), Remaining(bi))
      decreases |Remaining(ai)|
    {
      var at, ai' := Next(ai);
      var bt, bi' := Next(bi);
      if at.None? || bt.None? {
        return at.None? && bt.None?;
      }
      if at.value == GT || bt.value == GT {
        return true;
      }
      if at.value != STAR && bt.value != STAR && at.value != bt.value {
        return false;
      }
      assert Remaining(ai)[1..] == Remaining(ai') && Remaining(bi)[1..] == Remaining(bi');
      ai, bi := ai', bi';
    }
  }

  /** The engine's `subjects_overlap`, over the bytes that are left. */
  method EngineOverlap(a: Bytes, b: Bytes) returns (r: bool)
    ensures r <==> OverlapBytes(a, b)
  {
    var x, y := a, b;
    while true
      invariant OverlapBytes(a, b) <==> OverlapBytes(x, y)
      decreases |x| + |y|
    {
      var (xt, xr) := NextToken(x);
      var (yt, yr) := NextToken(y);
      if (xt == GT && yt != []) || (yt == GT && xt != []) {
        return true;
      }
      if !((xt == STAR && yt != []) || (yt == STAR && xt != []) || (xt == yt && xt != [])) {
        return xt == [] && yt == [] && xr == [] && yr == [];
      }
      x, y := xr, yr;
    }
  }

  /** `subject_matches`. */
  method EngineMatches(pattern: Bytes, subject: Bytes) returns (r: bool)
    ensures r <==> MatchesBytes(pattern, subject)
    ensures WellFormed(pattern) ==> (r <==> Matches(Split(pattern), SubjectTokens(subject)))
  {
    if WellFormed(pattern) {
      MatchesIsExact(pattern, subject);
    }
    var p, s := pattern, subject;
    while true
      invariant MatchesBytes(pattern, subject) <==> MatchesBytes(p, s)
      decreases |p|
    {
      var (pt, pr) := NextToken(p);
      var (st, sr) := NextToken(s);
      if pt == GT && st != [] {
        return true;
      }
      if !((pt == STAR && st != []) || (pt == st && pt != [])) {
        return pt == [] && st == [] && pr == [] && sr == [];
      }
      p, s := pr, sr;
    }
  }

  /** `subject_covers`. */
  method EngineCovers(wide: Bytes, narrow: Bytes) returns (r: bool)
    ensures r <==> CoversBytes(wide, narrow)
    ensures WellFormed(wide) && WellFormed(narrow) ==>
              (r <==> forall s: Bytes :: MatchesBytes(narrow, s) ==> MatchesBytes(wide, s))
  {
    if WellFormed(wide) && WellFormed(narrow) {
      CoversIsExact(wide, narrow);
    }
    var w, n := wide, narrow;
    while true
      invariant CoversBytes(wide, narrow) <==> CoversBytes(w, n)
      decreases |w|
    {
      var (wt, wr) := NextToken(w);
      var (nt, nr) := NextToken(n);
      if wt == GT && nt != [] {
        return true;
      }
      if nt == GT {
        return false;
      }
      if !((wt == STAR && nt != []) || (wt == nt && wt != [])) {
        return wt == [] && nt == [] && wr == [] && nr == [];
      }
      w, n := wr, nr;
    }
  }
}
