/** The admission rules of `stream_rules.rs`: a stream owns a slice of the subject space outright
    and alone. */
module StreamRules {
  import opened Machine
  import opened SubjectModel
  import Subjects

  type WireId = u32

  datatype Violation =
    | StreamFilterMissing
    | StreamFilterGlobal
    | StreamFilterDuplicate
    | StreamFilterOverlap
    | StreamFilterMismatch

  datatype Ruling<+E> = Admitted | Refused(violation: E)

  predicate IsGlobal(filter: Bytes) {
    filter == [] || filter == GT
  }

  /** A filter the dispatcher lets through to the rules: empty, or well-formed. */
  predicate Dispatched(filter: Bytes) {
    filter == [] || WellFormed(filter)
  }

  /** What the rules refuse a new filter for, given a filter already held. */
  predicate Clashes(filter: Bytes, other: Bytes) {
    other == filter || (!IsGlobal(other) && OverlapBytes(other, filter))
  }

  /** What the rules say about a new slice when the slices in `held` are taken. */
  function RulingOn(filter: Bytes, held: set<Bytes>): Ruling<Violation> {
    if filter == [] then Refused(StreamFilterMissing)
    else if filter == GT then Refused(StreamFilterGlobal)
    else if filter in held then Refused(StreamFilterDuplicate)
    else if exists f | f in held :: Clashes(filter, f) then Refused(StreamFilterOverlap)
    else Admitted
  }

  /** The rules as the registry is given them: the order of the claimed slices does not matter. */
  function Rules(filter: Bytes, claimed: seq<Bytes>): Ruling<Violation> {
    RulingOn(filter, set f | f in claimed)
  }

  /** Every rule for a new stream, in order. */
  method OnCreate(filter: Bytes, claimed: seq<Bytes>) returns (r: Ruling<Violation>)
    ensures r == Rules(filter, claimed)
    ensures r == Refused(StreamFilterMissing) <==> filter == []
    ensures r == Refused(StreamFilterGlobal) <==> filter == GT
    ensures r == Refused(StreamFilterDuplicate) <==> !IsGlobal(filter) && filter in claimed
    ensures r == Refused(StreamFilterOverlap) <==>
              && !IsGlobal(filter) && filter !in claimed
              && exists f :: f in claimed && !IsGlobal(f) && OverlapBytes(f, filter)
    ensures r != Refused(StreamFilterMismatch)
  {
    if filter == [] {
      return Refused(StreamFilterMissing);
    }
    if filter == GT {
      return Refused(StreamFilterGlobal);
    }
    if filter in claimed {
      return Refused(StreamFilterDuplicate);
    }
    for i := 0 to |claimed|
      invariant forall f | f in claimed[..i] :: !Clashes(filter, f)
    {
      assert claimed[..i + 1] == claimed[..i] + [claimed[i]];
      if !IsGlobal(claimed[i]) {
        var shared := Subjects.EngineOverlap(claimed[i], filter);
        if shared {
          assert claimed[i] in claimed && Clashes(filter, claimed[i]);
          return Refused(StreamFilterOverlap);
        }
      }
    }
    assert claimed[..|claimed|] == claimed;
    return Admitted;
  }

  /** Re-creating a stream must not move its slice. */
  function OnRecreate(filter: Bytes, existing: Bytes): (r: Ruling<Violation>)
    ensures r.Admitted? <==> filter == [] || filter == existing
  {
    if filter == [] || filter == existing then Admitted else Refused(StreamFilterMismatch)
  }

  // ---------------------------------------------------------------------------
  // Exclusive ownership
  // ---------------------------------------------------------------------------

  /** The slices held, by stream: all well-formed and bounded, and no two overlapping. */
  ghost predicate Exclusive(claims: map<WireId, Bytes>) {
    && (forall w | w in claims :: WellFormed(claims[w]) && !IsGlobal(claims[w]))
    && (forall w, x | w in claims && x in claims && w != x :: !OverlapBytes(claims[w], claims[x]))
  }

  /** Under exclusive claims no subject, however many bytes it has, is captured by two streams. */
  lemma AtMostOneStream(claims: map<WireId, Bytes>, subject: Bytes, w: WireId, x: WireId)
    requires Exclusive(claims) && w in claims && x in claims
    requires MatchesBytes(claims[w], subject) && MatchesBytes(claims[x], subject)
    ensures w == x
  {
    hide MatchesBytes, OverlapBytes;
    if w != x {
      OverlapIsExact(claims[w], claims[x]);
    }
  }

  /** What the rules ask of a new claim. */
  ghost predicate Admissible(claims: map<WireId, Bytes>, filter: Bytes) {
    RulingOn(filter, claims.Values).Admitted?
  }

  lemma AdmissibleMeans(claims: map<WireId, Bytes>, filter: Bytes)
    ensures Admissible(claims, filter) <==> !IsGlobal(filter) && forall w | w in claims :: !Clashes(filter, claims[w])
  {
    hide Clashes;
    if w :| w in claims && Clashes(filter, claims[w]) {
      assert claims[w] in claims.Values;
    }
    if filter in claims.Values {
      var w :| w in claims && claims[w] == filter;
      ClashesWithItself(filter);
    }
    if f :| f in claims.Values && Clashes(filter, f) {
      var w :| w in claims && claims[w] == f;
    }
  }

  lemma ClashesWithItself(filter: Bytes)
    ensures Clashes(filter, filter)
  {
  }

  /** Under exclusive claims the rules admit a well-formed bounded filter exactly when no held
      slice shares a subject with it. */
  lemma AdmissibleIsExact(claims: map<WireId, Bytes>, filter: Bytes)
    requires Exclusive(claims) && WellFormed(filter) && !IsGlobal(filter)
    ensures Admissible(claims, filter) <==> forall w | w in claims :: !ShareSubject(claims[w], filter)
  {
    hide MatchesBytes, OverlapBytes, Overlap, ShareSubject, Admissible;
    AdmissibleMeans(claims, filter);
    forall w | w in claims ensures Clashes(filter, claims[w]) <==> ShareSubject(claims[w], filter) {
      OverlapIsExact(claims[w], filter);
      OverlapAgrees(claims[w], filter);
      if claims[w] == filter {
        OverlapsItself(Split(filter));
      }
    }
  }

  lemma {:induction false} OverlapsItself(p: seq<Token>)
    ensures Overlap(p, p)
  {
    if p != [] {
      OverlapsItself(p[1..]);
    }
  }

  /** An admitted claim keeps ownership exclusive. */
  lemma ClaimKeepsExclusive(claims: map<WireId, Bytes>, w: WireId, filter: Bytes)
    requires Exclusive(claims) && w !in claims && Dispatched(filter) && Admissible(claims, filter)
    ensures Exclusive(claims[w := filter])
  {
    hide OverlapBytes, Admissible, WellFormed;
    AdmissibleMeans(claims, filter);
    forall x | x in claims ensures !OverlapBytes(filter, claims[x]) {
      OverlapAgrees(claims[x], filter);
      OverlapAgrees(filter, claims[x]);
      OverlapIsSymmetric(Split(filter), Split(claims[x]));
    }
  }

  /** Giving a claim up keeps ownership exclusive. */
  lemma ReleaseKeepsExclusive(claims: map<WireId, Bytes>, w: WireId)
    requires Exclusive(claims)
    ensures Exclusive(claims - {w})
  {
  }

  // ---------------------------------------------------------------------------
  // Any check that guards against overlap will do
  // ---------------------------------------------------------------------------

  type Check<!E> = (Bytes, seq<Bytes>) -> Ruling<E>

  /** The slices held are well-formed and no subject, concrete or not, is in two of them. */
  ghost predicate Disjoint(claims: map<WireId, Bytes>) {
    && (forall w | w in claims :: WellFormed(claims[w]))
    && (forall w, x | w in claims && x in claims && w != x :: !ShareSubject(claims[w], claims[x]))
  }

  /** The check refuses every well-formed filter that shares a subject with a claimed one. */
  ghost predicate Guards<E>(check: Check<E>) {
    forall filter: Bytes, claimed: seq<Bytes>, f: Bytes ::
      WellFormed(filter) && f in claimed && ShareSubject(f, filter) ==> check(filter, claimed).Refused?
  }

  /** A claim with no filter claims nothing. */
  ghost function WithClaim(claims: map<WireId, Bytes>, w: WireId, filter: Bytes): map<WireId, Bytes> {
    if filter == [] then claims else claims[w := filter]
  }

  lemma GuardedClaimKeepsDisjoint<E>(claims: map<WireId, Bytes>, w: WireId, filter: Bytes, check: Check<E>, claimed: seq<Bytes>)
    requires Disjoint(claims) && w !in claims && Dispatched(filter)
    requires (set f | f in claimed) == claims.Values && Guards(check) && check(filter, claimed).Admitted?
    ensures Disjoint(WithClaim(claims, w, filter))
  {
    hide ShareSubject, WellFormed;
    if filter != [] {
      forall x | x in claims ensures !ShareSubject(claims[x], filter) && !ShareSubject(filter, claims[x]) {
        SharingIsSymmetric(claims[x], filter);
        assert claims[x] in claims.Values;
        assert claims[x] in (set f | f in claimed);
      }
    }
  }

  lemma SharingIsSymmetric(a: Bytes, b: Bytes)
    ensures ShareSubject(a, b) <==> ShareSubject(b, a)
  {
    hide MatchesBytes;
  }

  /** The broker's rules guard exactly against claims that are not the global filter: `>` itself, were
      it claimed, would be skipped. */
  lemma RulesGuardBounded(filter: Bytes, claimed: seq<Bytes>)
    requires WellFormed(filter) && !IsGlobal(filter) && forall f | f in claimed :: WellFormed(f)
    ensures Rules(filter, claimed).Refused? <==> exists f | f in claimed :: !IsGlobal(f) && ShareSubject(f, filter)
  {
    hide OverlapBytes, ShareSubject, WellFormed, Overlap;
    forall f | f in claimed && !IsGlobal(f) ensures Clashes(filter, f) <==> ShareSubject(f, filter) {
      OverlapIsExact(f, filter);
      OverlapAgrees(f, filter);
      if f == filter {
        OverlapsItself(Split(filter));
      }
    }
  }

  /** A request to the broker; `room` says whether the allocator had a slot left. */
  datatype Request = Create(wire: WireId, filter: Bytes, room: bool) | Remove(wire: WireId)

  /** What a request does to the claims: a create of an unknown stream claims its filter if the
      rules admit it and there is room, a create of a known one changes nothing. */
  ghost function Serve(claims: map<WireId, Bytes>, q: Request): map<WireId, Bytes> {
    match q
    case Create(wire, filter, room) =>
      if wire !in claims && Admissible(claims, filter) && room then claims[wire := filter] else claims
    case Remove(wire) => claims - {wire}
  }

  ghost function ServeAll(qs: seq<Request>): map<WireId, Bytes> {
    if qs == [] then map[] else Serve(ServeAll(qs[..|qs| - 1]), qs[|qs| - 1])
  }

  /** After every run of checked creates and removes with filters the dispatcher accepts, each
      subject is captured by at most one live stream. */
  lemma {:induction false} EveryRunIsExclusive(qs: seq<Request>)
    requires forall i | 0 <= i < |qs| && qs[i].Create? :: Dispatched(qs[i].filter)
    ensures Exclusive(ServeAll(qs))
    ensures forall s: Bytes, w, x | w in ServeAll(qs) && x in ServeAll(qs)
              && MatchesBytes(ServeAll(qs)[w], s) && MatchesBytes(ServeAll(qs)[x], s) :: w == x
  {
    if qs != [] {
      var claims := ServeAll(qs[..|qs| - 1]);
      EveryRunIsExclusive(qs[..|qs| - 1]);
      match qs[|qs| - 1]
      case Create(wire, filter, room) =>
        if wire !in claims && Admissible(claims, filter) {
          ClaimKeepsExclusive(claims, wire, filter);
        }
      case Remove(wire) => ReleaseKeepsExclusive(claims, wire);
    }
    forall s: Bytes, w, x | w in ServeAll(qs) && x in ServeAll(qs)
      && MatchesBytes(ServeAll(qs)[w], s) && MatchesBytes(ServeAll(qs)[x], s)
      ensures w == x
    {
      AtMostOneStream(ServeAll(qs), s, w, x);
    }
  }

  /** `>.>` passes the bounded-slice rule although it captures whatever `>` does. */
  lemma GlobalInDisguise(s: Bytes)
    ensures !IsGlobal(GT + [DOT] + GT) && WellFormed(GT + [DOT] + GT)
    ensures MatchesBytes(GT + [DOT] + GT, s) <==> MatchesBytes(GT, s)
  {
    var p := GT + [DOT] + GT;
    FirstTokenIs(GT, GT);
    FirstDotAfter(GT, []);
    assert Split(GT) == [GT];
  }

  /** Exactly which admitted filters capture everything: those whose first token is `>`. */
  lemma CapturesAllIffGtFirst(filter: Bytes)
    requires WellFormed(filter)
    ensures CoversBytes(filter, GT) <==> Split(filter)[0] == GT
  {
    FirstDotAfter(GT, []);
    assert Split(GT) == [GT];
    CoversAgrees(filter, GT);
  }
}
