/** The name registry of `name_registry.rs`: wire ids and names on one side, small sequential ids on
    the other. Every operation runs under one lock, so a call is one step; the hot snapshot is
    replaced at the end of each call that changes what it mirrors. */
module NameRegistry {
  import opened Machine
  import opened IdPoolModel
  import opened IdPools
  import opened SubjectModel
  import opened RegistryModel
  import opened StreamRules
  import Subjects

  const MAX_SLOT_COUNT: u32 := 4096
  const MAX_IDEMPOTENCY_WINDOW_MS: u32 := 300000
  const SLOT_FULL: u32 := 0xFFFF_FFFF
  const COLLISION: u32 := 0xFFFF_FFFE
  const CONSUMER_STREAM_UNSET: u32 := 0xFFFF_FFFF

  /** What the publish and ack paths read without the lock. */
  datatype HotSnapshot = HotSnapshot(
    streamsByWire: map<u32, u32>,
    streamsSeqToWire: seq<u32>,
    streamsWindowMs: seq<u32>,
    streamsReplicas: seq<byte>,
    consumerStream: seq<u32>)

  /** Everything a registry holds about streams. */
  datatype StreamTable = StreamTable(
    byWire: map<u32, u32>, seqToWire: seq<u32>, windowMs: seq<u32>, replicas: seq<byte>,
    nameByWire: map<u32, Bytes>, filters: seq<Bytes>, pool: Pool)

  /** Everything a registry holds about consumers. */
  datatype ConsumerTable = ConsumerTable(
    byName: map<ConsumerKey, u32>, queue: map<u32, u32>, stream: seq<u32>,
    deliver: map<u32, (byte, u64)>, cursors: map<u32, u64>, pool: Pool)

  class NameRegistry {
    var streamsByWire: map<u32, u32>
    var streamsSeqToWire: seq<u32>
    var streamsWindowMs: seq<u32>
    var streamsReplicas: seq<byte>
    var streamsNameByWire: map<u32, Bytes>
    var streamFilters: seq<Bytes>
    const streamPool: IdPool
    var consumersByName: map<ConsumerKey, u32>
    var consumerQueue: map<u32, u32>
    var consumerStream: seq<u32>
    var consumerDeliver: map<u32, (byte, u64)>
    var consumerCursors: map<u32, u64>
    const consumerPool: IdPool
    var hot: HotSnapshot

    ghost function Streams(): StreamTable
      reads this, streamPool
    {
      StreamTable(streamsByWire, streamsSeqToWire, streamsWindowMs, streamsReplicas, streamsNameByWire,
                  streamFilters, streamPool.State())
    }

    ghost function Consumers(): ConsumerTable
      reads this, consumerPool
    {
      ConsumerTable(consumersByName, consumerQueue, consumerStream, consumerDeliver, consumerCursors, consumerPool.State())
    }

    /** The slices the live streams hold. */
    ghost function Claims(): map<u32, Bytes>
      reads this
    {
      ClaimsOf(streamsByWire, streamFilters)
    }

    /** Every live stream holds a slice, as after checked creates alone. */
    ghost predicate AllClaimed()
      reads this
    {
      streamsByWire.Keys == Claims().Keys
    }

    ghost predicate StreamsValid()
      reads this, streamPool
    {
      && StreamsAgree(streamsByWire, streamsSeqToWire, streamPool.State())
      && streamPool.maxSlots == MAX_SLOT_COUNT
      && streamsNameByWire.Keys <= streamsByWire.Keys
    }

    ghost predicate ConsumersValid()
      reads this, consumerPool
    {
      ConsumersAgree(consumersByName, consumerPool.State()) && consumerPool.maxSlots == MAX_SLOT_COUNT
    }

    /** The hot snapshot is the state it mirrors. */
    ghost predicate Mirrored()
      reads this
    {
      hot == HotSnapshot(streamsByWire, streamsSeqToWire, streamsWindowMs, streamsReplicas, consumerStream)
    }

    /** What holds between calls. */
    ghost predicate Valid()
      reads this, streamPool, consumerPool
    {
      streamPool != consumerPool && StreamsValid() && ConsumersValid() && Mirrored()
    }

    /** No dead consumer slot carries anything over to its next owner. */
    ghost predicate CleanSlate()
      reads this, consumerPool
    {
      forall s: u32 | !Live(consumerPool.State(), s) ::
        && s !in consumerQueue && s !in consumerDeliver && s !in consumerCursors
        && GetAt(consumerStream, s as nat, CONSUMER_STREAM_UNSET) == CONSUMER_STREAM_UNSET
    }

    constructor ()
      ensures Valid() && CleanSlate() && fresh(streamPool) && fresh(consumerPool)
      ensures streamsByWire == map[] && consumersByName == map[] && Claims() == map[]
      ensures FiltersAgree(streamFilters, streamPool.State())
    {
      hide StreamsAgree, ConsumersAgree, Live, IdPoolModel.Alloc;
      streamsByWire, streamsSeqToWire, streamsWindowMs, streamsReplicas := map[], [], [], [];
      streamsNameByWire, streamFilters := map[], [];
      consumersByName, consumerQueue, consumerStream, consumerDeliver, consumerCursors := map[], map[], [], map[], map[];
      hot := HotSnapshot(map[], [], [], [], []);
      streamPool := new IdPool(MAX_SLOT_COUNT);
      consumerPool := new IdPool(MAX_SLOT_COUNT);
      new;
      NothingRegistered(MAX_SLOT_COUNT);
      var burned := consumerPool.Alloc();
    }

    /** The end of `with_inner_swap`. */
    method Publish()
      modifies this`hot
      ensures Mirrored()
    {
      hot := HotSnapshot(streamsByWire, streamsSeqToWire, streamsWindowMs, streamsReplicas, consumerStream);
    }

    // ── Streams ────────────────────────────────────────────────────────────

    /** Mint an id for an unmapped wire id and reset its dense entries. */
    method MintStream(wireId: u32) returns (r: Option<u32>)
      requires Valid() && wireId !in streamsByWire
      modifies this`streamsByWire, this`streamsSeqToWire, this`streamsWindowMs, this`streamsReplicas, streamPool
      ensures StreamsValid() && ConsumersValid()
      ensures r.None? <==> IdPoolModel.Alloc(old(streamPool.State())).1.Err?
      ensures r.None? ==> Streams() == old(Streams())
      ensures r.Some? ==> IdPoolModel.Alloc(old(streamPool.State())).1.value.0 == r.value
                          && !Live(old(streamPool.State()), r.value) && r.value < MAX_SLOT_COUNT
                          && Minted(old(Streams()), Streams(), wireId, r.value)
                          && streamPool.State() == IdPoolModel.Alloc(old(streamPool.State())).0
    {
      hide StreamsAgree, ConsumersAgree, Live, IdPoolModel.Alloc;
      ghost var pool := streamPool.State();
      StreamsAgreeIsValid(streamsByWire, streamsSeqToWire, pool);
      AllocHandsOutDeadSlot(pool);
      var a := streamPool.Alloc();
      if a.Err? {
        return None;
      }
      var slot := a.value.0;
      RegisterStream(streamsByWire, streamsSeqToWire, pool, wireId);
      streamsByWire := streamsByWire[wireId := slot];
      streamsSeqToWire := PutAt(streamsSeqToWire, slot as nat, wireId, 0);
      streamsWindowMs := PutAt(streamsWindowMs, slot as nat, 0, 0);
      streamsReplicas := PutAt(streamsReplicas, slot as nat, 1, 1);
      return Some(slot);
    }

    /** Translate or allocate. */
    method GetOrCreateStream(wireId: u32) returns (id: u32, created: bool)
      requires Valid()
      modifies this`streamsByWire, this`streamsSeqToWire, this`streamsWindowMs, this`streamsReplicas, this`hot, streamPool
      ensures Valid()
      ensures created <==> wireId !in old(streamsByWire) && IdPoolModel.Alloc(old(streamPool.State())).1.Ok?
      ensures !created ==> Streams() == old(Streams())
                           && id == if wireId in streamsByWire then streamsByWire[wireId] else SLOT_FULL
      ensures created ==> Minted(old(Streams()), Streams(), wireId, id) && !Live(old(streamPool.State()), id)
      ensures old(FiltersAgree(streamFilters, streamPool.State())) ==>
                FiltersAgree(streamFilters, streamPool.State()) && Claims() == old(Claims())
    {
      hide StreamsAgree, ConsumersAgree, Live, IdPoolModel.Alloc, FiltersAgree, ClaimsOf;
      if wireId in streamsByWire {
        Publish();
        return streamsByWire[wireId], false;
      }
      ghost var t := Streams();
      var r := MintStream(wireId);
      Publish();
      if r.None? {
        return SLOT_FULL, false;
      }
      FreshClaimsNothing(t, wireId, r.value);
      return r.value, true;
    }

    /** The same, refusing a wire id that belongs to another name. */
    method GetOrCreateStreamNamed(wireId: u32, name: Bytes) returns (id: u32, created: bool)
      requires Valid()
      modifies this`streamsByWire, this`streamsSeqToWire, this`streamsWindowMs, this`streamsReplicas,
               this`streamsNameByWire, this`hot, streamPool
      ensures Valid()
      ensures created <==> wireId !in old(streamsByWire) && IdPoolModel.Alloc(old(streamPool.State())).1.Ok?
      ensures !created ==> Streams() == old(Streams())
      ensures !created && wireId in streamsByWire ==>
                id == if wireId in streamsNameByWire && streamsNameByWire[wireId] != name then COLLISION
                      else streamsByWire[wireId]
      ensures !created && wireId !in streamsByWire ==> id == SLOT_FULL
      ensures created ==> Minted(old(Streams()), Streams(), wireId, id) && !Live(old(streamPool.State()), id)
                          && streamsNameByWire == old(streamsNameByWire)[wireId := name]
      ensures old(FiltersAgree(streamFilters, streamPool.State())) ==>
                FiltersAgree(streamFilters, streamPool.State()) && Claims() == old(Claims())
    {
      hide StreamsAgree, ConsumersAgree, Live, IdPoolModel.Alloc, FiltersAgree, ClaimsOf;
      if wireId in streamsByWire {
        Publish();
        if wireId in streamsNameByWire && streamsNameByWire[wireId] != name {
          return COLLISION, false;
        }
        return streamsByWire[wireId], false;
      }
      ghost var t := Streams();
      var r := MintStream(wireId);
      if r.None? {
        Publish();
        return SLOT_FULL, false;
      }
      streamsNameByWire := streamsNameByWire[wireId := name];
      Publish();
      FreshClaimsNothing(t, wireId, r.value);
      return r.value, true;
    }

    /** Every slice some stream holds, in whatever order the map yields its streams. */
    method ClaimedFilters() returns (claimed: seq<Bytes>)
      ensures Enumerates(Claims(), claimed)
    {
      hide ClaimsOf;
      claimed := [];
      ghost var order: seq<u32> := [];
      ghost var claims := Claims();
      var left := streamsByWire.Keys;
      ClaimedAreMapped(streamsByWire, streamFilters);
      while left != {}
        invariant left <= streamsByWire.Keys && claims == Claims()
        invariant Lists(claims, claimed, order) && forall w | w in order :: w !in left
        invariant forall w | w in claims && w !in left :: w in order
        decreases |left|
      {
        var w :| w in left;
        left := left - {w};
        var f := GetAt(streamFilters, streamsByWire[w] as nat, []);
        if f != [] {
          claimed, order := claimed + [f], order + [w];
        }
      }
    }

    /** Create a stream only if `check` admits its slice against every slice claimed; `recheck` rules on
        a stream that exists. Checking and claiming are one step. */
    method GetOrCreateStreamChecked<E>(wireId: u32, name: Bytes, filter: Bytes, check: Check<E>, recheck: (Bytes, Bytes) -> Ruling<E>)
      returns (r: Admission<E>, ghost claimed: seq<Bytes>)
      requires Valid()
      modifies this`streamsByWire, this`streamsSeqToWire, this`streamsWindowMs, this`streamsReplicas,
               this`streamsNameByWire, this`streamFilters, this`hot, streamPool
      ensures Valid()
      ensures wireId !in old(streamsByWire) ==> Enumerates(old(Claims()), claimed)
      ensures r == Verdict(old(Streams()), wireId, name, check(filter, claimed), recheck(filter, old(Slice(wireId))))
      ensures wireId in old(streamsByWire) && wireId in old(streamsNameByWire) && old(streamsNameByWire)[wireId] != name ==>
                r == Granted(COLLISION, false)
      ensures r.Granted? && !r.created ==> Unchanged(old(Streams()), wireId, name, r.id)
      ensures r.Granted? && r.created ==>
                && Minted(old(Streams()), Streams(), wireId, r.id) && !Live(old(streamPool.State()), r.id)
                && streamsNameByWire == old(streamsNameByWire)[wireId := name]
                && Claims() == WithClaim(old(Claims()), wireId, filter)
      ensures !(r.Granted? && r.created) ==> Streams() == old(Streams()) && Claims() == old(Claims())
      ensures Guards(check) && Dispatched(filter) && old(Disjoint(Claims())) ==> Disjoint(Claims())
      ensures old(FiltersAgree(streamFilters, streamPool.State())) ==> FiltersAgree(streamFilters, streamPool.State())
    {
      hide StreamsAgree, ConsumersAgree, Live, IdPoolModel.Alloc, ClaimsOf, Disjoint, Guards, WithClaim, FiltersAgree;
      claimed := [];
      if wireId in streamsByWire {
        Publish();
        if wireId in streamsNameByWire && streamsNameByWire[wireId] != name {
          r := Granted(COLLISION, false);
          return;
        }
        var ruling := recheck(filter, GetAt(streamFilters, streamsByWire[wireId] as nat, []));
        r := if ruling.Refused? then Denied(ruling.violation) else Granted(streamsByWire[wireId], false);
        return;
      }
      var held := ClaimedFilters();
      EnumeratedValues(Claims(), held);
      claimed := held;
      var ruling := check(filter, held);
      if ruling.Refused? {
        Publish();
        r := Denied(ruling.violation);
        return;
      }
      ghost var claims := Claims();
      UnknownIsUnclaimed(Streams(), wireId);
      if Guards(check) && Dispatched(filter) && Disjoint(claims) {
        GuardedClaimKeepsDisjoint(claims, wireId, filter, check, held);
      }
      var minted := ClaimStream(wireId, name, filter);
      r := if minted.None? then Granted(SLOT_FULL, false) else Granted(minted.value, true);
    }

    /** The slice recorded for a stream, empty if there is none. */
    ghost function Slice(wireId: u32): Bytes
      reads this
    {
      if wireId in streamsByWire then GetAt(streamFilters, streamsByWire[wireId] as nat, []) else []
    }

    /** Mint a stream and record its slice. */
    method ClaimStream(wireId: u32, name: Bytes, filter: Bytes) returns (r: Option<u32>)
      requires Valid() && wireId !in streamsByWire
      modifies this`streamsByWire, this`streamsSeqToWire, this`streamsWindowMs, this`streamsReplicas,
               this`streamsNameByWire, this`streamFilters, this`hot, streamPool
      ensures Valid()
      ensures r.None? <==> IdPoolModel.Alloc(old(streamPool.State())).1.Err?
      ensures r.None? ==> Streams() == old(Streams())
      ensures r.Some? ==>
                && r.value == IdPoolModel.Alloc(old(streamPool.State())).1.value.0
                && !Live(old(streamPool.State()), r.value)
                && Minted(old(Streams()), Streams(), wireId, r.value)
                && streamsNameByWire == old(streamsNameByWire)[wireId := name]
                && Claims() == WithClaim(old(Claims()), wireId, filter)
      ensures old(FiltersAgree(streamFilters, streamPool.State())) ==> FiltersAgree(streamFilters, streamPool.State())
    {
      hide StreamsAgree, ConsumersAgree, Live, IdPoolModel.Alloc, ClaimsOf, FiltersAgree;
      ghost var t := Streams();
      r := MintStream(wireId);
      if r.None? {
        Publish();
        return;
      }
      streamsNameByWire := streamsNameByWire[wireId := name];
      streamFilters := PutAt(streamFilters, r.value as nat, filter, []);
      Publish();
      FreshClaim(t, wireId, r.value, filter);
    }

    /** What the dispatcher does with a request to create a stream: validate, then check and claim
        under the broker's rules. */
    method CreateStream(wireId: u32, name: Bytes, filter: Bytes) returns (r: Reply)
      requires Valid()
      modifies this`streamsByWire, this`streamsSeqToWire, this`streamsWindowMs, this`streamsReplicas,
               this`streamsNameByWire, this`streamFilters, this`hot, streamPool
      ensures Valid()
      ensures r.Answered? <==> Subjects.ValidName(name) && (filter == [] || Subjects.Acceptable(filter))
      ensures r.Answered? ==>
                r.admission == Verdict(old(Streams()), wireId, name,
                                       RulingOn(filter, old(Claims()).Values), OnRecreate(filter, old(Slice(wireId))))
      ensures wireId in old(streamsByWire) && wireId in old(streamsNameByWire) && old(streamsNameByWire)[wireId] != name ==>
                r.Invalid? || r.admission == Granted(COLLISION, false)
      ensures r.Answered? && r.admission.Granted? && !r.admission.created ==>
                Unchanged(old(Streams()), wireId, name, r.admission.id)
      ensures r.Answered? && r.admission.Granted? && r.admission.created ==>
                && Minted(old(Streams()), Streams(), wireId, r.admission.id)
                && streamsNameByWire == old(streamsNameByWire)[wireId := name]
                && Claims() == old(Claims())[wireId := filter]
      ensures r.Invalid? || !(r.admission.Granted? && r.admission.created) ==> Streams() == old(Streams())
      ensures old(Exclusive(Claims())) ==> Exclusive(Claims())
      ensures old(AllClaimed()) ==>
                && AllClaimed()
                && Claims() == if r.Invalid? then old(Claims()) else
                     Serve(old(Claims()), Create(wireId, filter, IdPoolModel.Alloc(old(streamPool.State())).1.Ok?))
      ensures old(FiltersAgree(streamFilters, streamPool.State())) ==> FiltersAgree(streamFilters, streamPool.State())
    {
      hide StreamsAgree, ConsumersAgree, Live, IdPoolModel.Alloc, ClaimsOf, Exclusive, FiltersAgree, Disjoint, Guards,
           RulingOn, OnRecreate, WellFormed, Subjects.Acceptable, Subjects.ValidName;
      var named := Subjects.ValidateName(name);
      if named.Rejected? {
        return Invalid;
      }
      if filter != [] {
        var valid := Subjects.ValidateSubject(filter);
        if valid.Rejected? {
          return Invalid;
        }
        Subjects.AcceptableIsWellFormed(filter);
      }
      ghost var t, claims := Streams(), Claims();
      UnknownIsUnclaimed(t, wireId);
      var admission, claimed := GetOrCreateStreamChecked(wireId, name, filter, Rules, OnRecreate);
      r := Answered(admission);
      if wireId !in t.byWire {
        EnumeratedValues(claims, claimed);
      }
      if admission.Granted? && admission.created {
        assert Admissible(claims, filter);
        AdmissibleIsBounded(claims, filter);
        if Exclusive(claims) {
          ClaimKeepsExclusive(claims, wireId, filter);
        }
      }
    }

    /** Drop a mapped stream, release its slice and recycle its slot. */
    method DropStream(wireId: u32)
      requires Valid() && wireId in streamsByWire
      modifies this`streamsByWire, this`streamsSeqToWire, this`streamsWindowMs, this`streamsReplicas,
               this`streamsNameByWire, this`streamFilters, this`hot, streamPool
      ensures Valid()
      ensures streamsByWire == old(streamsByWire) - {wireId} && streamsNameByWire == old(streamsNameByWire) - {wireId}
      ensures streamPool.State() == IdPoolModel.Free(old(streamPool.State()), old(streamsByWire)[wireId]).0
      ensures streamFilters == ResetAt(old(streamFilters), old(streamsByWire)[wireId] as nat, [])
      ensures Unminted(old(Streams()), Streams(), wireId, old(streamsByWire)[wireId])
      ensures WireOf(streamsSeqToWire, old(streamsByWire)[wireId]) == None
    {
      hide StreamsAgree, ConsumersAgree, Live, IdPoolModel.Free;
      UnregisterStream(streamsByWire, streamsSeqToWire, streamPool.State(), wireId);
      MappedIsListed(Streams(), wireId);
      var removed := streamsByWire[wireId];
      streamsByWire := streamsByWire - {wireId};
      streamsNameByWire := streamsNameByWire - {wireId};
      streamsSeqToWire := ResetAt(streamsSeqToWire, removed as nat, 0);
      streamsWindowMs := ResetAt(streamsWindowMs, removed as nat, 0);
      streamsReplicas := ResetAt(streamsReplicas, removed as nat, 0);
      streamFilters := ResetAt(streamFilters, removed as nat, []);
      var freed := streamPool.Free(removed);
      Publish();
    }

    method RemoveStream(wireId: u32) returns (r: Option<u32>)
      requires Valid()
      modifies this`streamsByWire, this`streamsSeqToWire, this`streamsWindowMs, this`streamsReplicas,
               this`streamsNameByWire, this`streamFilters, this`hot, streamPool
      ensures Valid()
      ensures r == if wireId in old(streamsByWire) then Some(old(streamsByWire)[wireId]) else None
      ensures r.None? ==> Streams() == old(Streams())
      ensures r.Some? ==>
                && Unminted(old(Streams()), Streams(), wireId, r.value)
                && streamPool.State() == IdPoolModel.Free(old(streamPool.State()), r.value).0
                && IdPoolModel.Free(old(streamPool.State()), r.value).1.Ok?
                && WireOf(streamsSeqToWire, r.value) == None
      ensures Claims() == old(Claims()) - {wireId}
      ensures old(Exclusive(Claims())) ==> Exclusive(Claims())
      ensures old(AllClaimed()) ==> AllClaimed() && Claims() == Serve(old(Claims()), Remove(wireId))
      ensures old(FiltersAgree(streamFilters, streamPool.State())) ==> FiltersAgree(streamFilters, streamPool.State())
    {
      hide StreamsAgree, ConsumersAgree, Live, IdPoolModel.Free, ClaimsOf, Exclusive, FiltersAgree, ResetAt;
      ghost var t, claims := Streams(), Claims();
      if Exclusive(claims) {
        ReleaseKeepsExclusive(claims, wireId);
      }
      if wireId !in streamsByWire {
        UnknownIsUnclaimed(t, wireId);
        assert claims - {wireId} == claims;
        Publish();
        return None;
      }
      UnregisterStream(t.byWire, t.seqToWire, t.pool, wireId);
      UnregisterClaims(t.byWire, t.seqToWire, t.filters, t.pool, wireId);
      ReleasedFilters(t, wireId);
      r := Some(streamsByWire[wireId]);
      DropStream(wireId);
    }

    /** Restore a stream's slice, as log replay does. */
    method SetStreamFilter(id: u32, filter: Bytes)
      requires Valid()
      modifies this`streamFilters, this`hot
      ensures Valid() && streamFilters == PutAt(old(streamFilters), id as nat, filter, [])
      ensures old(FiltersAgree(streamFilters, streamPool.State())) ==>
                (FiltersAgree(streamFilters, streamPool.State()) <==> Live(streamPool.State(), id) || filter == [])
    {
      hide StreamsAgree, ConsumersAgree, Live;
      streamFilters := PutAt(streamFilters, id as nat, filter, []);
      Publish();
      if !Live(streamPool.State(), id) {
        assert streamFilters[id] == filter;
      }
    }

    /** Set a stream's idempotency window, clamped to what the broker honours. */
    method SetStreamIdempotency(id: u32, windowMs: u32)
      requires Valid()
      modifies this`streamsWindowMs, this`hot
      ensures Valid()
      ensures hot.streamsWindowMs == PutAt(old(hot.streamsWindowMs), id as nat,
                if windowMs < MAX_IDEMPOTENCY_WINDOW_MS then windowMs else MAX_IDEMPOTENCY_WINDOW_MS, 0)
    {
      hide StreamsAgree, ConsumersAgree, Live;
      var clamped := if windowMs < MAX_IDEMPOTENCY_WINDOW_MS then windowMs else MAX_IDEMPOTENCY_WINDOW_MS;
      streamsWindowMs := PutAt(streamsWindowMs, id as nat, clamped, 0);
      Publish();
    }

    /** Wire id to stream id, from the hot snapshot. */
    method StreamSeq(wireId: u32) returns (r: Option<u32>)
      requires Valid()
      ensures r.Some? <==> wireId in streamsByWire
      ensures r.Some? ==> streamsByWire[wireId] == r.value && Live(streamPool.State(), r.value)
    {
      r := if wireId in hot.streamsByWire then Some(hot.streamsByWire[wireId]) else None;
    }

    /** Stream id to wire id, from the hot snapshot: the inverse of `StreamSeq` on non-zero wire ids. */
    method StreamWire(id: u32) returns (r: Option<u32>)
      requires Valid()
      ensures forall w: u32 | w != 0 :: r == Some(w) <==> w in streamsByWire && streamsByWire[w] == id
      ensures r.None? <==> !Live(streamPool.State(), id) || (0 in streamsByWire && streamsByWire[0] == id)
    {
      hide StreamsAgree, ConsumersAgree, Live;
      forall w: u32 ensures w != 0 ==> (w in streamsByWire && streamsByWire[w] == id <==> WireOf(streamsSeqToWire, id) == Some(w)) {
        TranslationsInvert(streamsByWire, streamsSeqToWire, streamPool.State(), w, id);
      }
      TranslationsInvert(streamsByWire, streamsSeqToWire, streamPool.State(), 1, id);
      var wire := GetAt(hot.streamsSeqToWire, id as nat, 0);
      r := if wire != 0 then Some(wire) else None;
    }

    // ── Consumers ──────────────────────────────────────────────────────────

    /** Resolve or allocate a consumer of a stream. A recycled id starts from nothing. */
    method GetOrCreateConsumer(stream: u32, name: Bytes) returns (id: u32, created: bool)
      requires Valid()
      modifies this`consumersByName, this`consumerStream, this`hot, consumerPool
      ensures Valid()
      ensures created <==> (stream, name) !in old(consumersByName) && IdPoolModel.Alloc(old(consumerPool.State())).1.Ok?
      ensures !created ==> Consumers() == old(Consumers())
                           && id == if (stream, name) in consumersByName then consumersByName[(stream, name)] else SLOT_FULL
      ensures created ==> consumersByName == old(consumersByName)[(stream, name) := id] && id != 0
                          && !Live(old(consumerPool.State()), id)
                          && consumerStream == if id as nat < |old(consumerStream)| then old(consumerStream)
                               else PutAt(old(consumerStream), id as nat, CONSUMER_STREAM_UNSET, CONSUMER_STREAM_UNSET)
      ensures old(CleanSlate()) ==> CleanSlate()
      ensures created && old(CleanSlate()) ==>
                && id !in consumerQueue && id !in consumerDeliver && id !in consumerCursors
                && GetAt(consumerStream, id as nat, 0) == CONSUMER_STREAM_UNSET
    {
      hide StreamsAgree, ConsumersAgree, Live, IdPoolModel.Alloc;
      var key := (stream, name);
      if key in consumersByName {
        Publish();
        return consumersByName[key], false;
      }
      ghost var pool := consumerPool.State();
      ConsumersAgreeIsValid(consumersByName, pool);
      AllocHandsOutDeadSlot(pool);
      var a := consumerPool.Alloc();
      if a.Err? {
        Publish();
        return SLOT_FULL, false;
      }
      id := a.value.0;
      RegisterConsumer(consumersByName, pool, key);
      consumersByName := consumersByName[key := id];
      if id as nat >= |consumerStream| {
        consumerStream := PutAt(consumerStream, id as nat, CONSUMER_STREAM_UNSET, CONSUMER_STREAM_UNSET);
      }
      Publish();
      return id, true;
    }

    /** Drop everything recorded under a consumer's key, and recycle its slot. */
    method Forget(key: ConsumerKey)
      requires Valid() && key in consumersByName
      modifies this`consumersByName, this`consumerQueue, this`consumerStream, this`consumerDeliver,
               this`consumerCursors, this`hot, consumerPool
      ensures Valid()
      ensures consumersByName == old(consumersByName) - {key}
      ensures consumerPool.State() == IdPoolModel.Free(old(consumerPool.State()), old(consumersByName)[key]).0
      ensures IdPoolModel.Free(old(consumerPool.State()), old(consumersByName)[key]).1.Ok?
      ensures !Live(consumerPool.State(), old(consumersByName)[key])
      ensures Cleared(old(Consumers()), Consumers(), old(consumersByName)[key])
      ensures old(CleanSlate()) ==> CleanSlate()
    {
      hide StreamsAgree, ConsumersAgree, Live, IdPoolModel.Free, Mirrored;
      ghost var pool := consumerPool.State();
      UnregisterConsumer(consumersByName, pool, key);
      var id := consumersByName[key];
      ConsumersAgreeIsValid(consumersByName, pool);
      FreeTakesLiveSlot(pool, id);
      consumersByName := consumersByName - {key};
      consumerQueue := consumerQueue - {id};
      consumerStream := ResetAt(consumerStream, id as nat, CONSUMER_STREAM_UNSET);
      consumerDeliver := consumerDeliver - {id};
      consumerCursors := consumerCursors - {id};
      var freed := consumerPool.Free(id);
      Publish();
    }

    method RemoveConsumer(stream: u32, name: Bytes) returns (r: Option<u32>)
      requires Valid()
      modifies this`consumersByName, this`consumerQueue, this`consumerStream, this`consumerDeliver,
               this`consumerCursors, this`hot, consumerPool
      ensures Valid()
      ensures r == if (stream, name) in old(consumersByName) then Some(old(consumersByName)[(stream, name)]) else None
      ensures r.None? ==> Consumers() == old(Consumers())
      ensures r.Some? ==> consumersByName == old(consumersByName) - {(stream, name)} && !Live(consumerPool.State(), r.value)
                          && Cleared(old(Consumers()), Consumers(), r.value)
      ensures old(CleanSlate()) ==> CleanSlate()
    {
      hide StreamsAgree, ConsumersAgree, Live;
      var key := (stream, name);
      if key !in consumersByName {
        Publish();
        return None;
      }
      var id := consumersByName[key];
      Forget(key);
      return Some(id);
    }

    /** The same by id: a live id belongs to exactly one name, which is returned. */
    method RemoveConsumerById(id: u32) returns (r: Option<Bytes>)
      requires Valid()
      modifies this`consumersByName, this`consumerQueue, this`consumerStream, this`consumerDeliver,
               this`consumerCursors, this`hot, consumerPool
      ensures Valid()
      ensures r.Some? <==> Live(old(consumerPool.State()), id) && id != 0
      ensures r.None? ==> Consumers() == old(Consumers())
      ensures r.Some? ==> Cleared(old(Consumers()), Consumers(), id)
      ensures r.Some? ==> !Live(consumerPool.State(), id)
                          && exists k :: k in old(consumersByName) && old(consumersByName)[k] == id && k.1 == r.value
                                         && consumersByName == old(consumersByName) - {k}
      ensures old(CleanSlate()) ==> CleanSlate()
    {
      NamedIffLive(consumersByName, consumerPool.State(), id);
      hide StreamsAgree, ConsumersAgree, Live;
      if !(exists k :: k in consumersByName && consumersByName[k] == id) {
        Publish();
        return None;
      }
      var k :| k in consumersByName && consumersByName[k] == id;
      Forget(k);
      return Some(k.1);
    }

    /** Record a consumer's queue. On a live id this keeps dead slots clean; on a dead one it does
        not. */
    method SetConsumerQueue(consumer: u32, queue: u32)
      requires Valid()
      modifies this`consumerQueue
      ensures Valid() && consumerQueue == old(consumerQueue)[consumer := queue]
      ensures old(CleanSlate()) ==> (CleanSlate() <==> Live(consumerPool.State(), consumer))
    {
      hide StreamsAgree, ConsumersAgree, Live;
      consumerQueue := consumerQueue[consumer := queue];
    }

    method SetConsumerDeliverPolicy(consumer: u32, policy: byte, startSeq: u64)
      requires Valid()
      modifies this`consumerDeliver
      ensures Valid() && consumerDeliver == old(consumerDeliver)[consumer := (policy, startSeq)]
      ensures old(CleanSlate()) ==> (CleanSlate() <==> Live(consumerPool.State(), consumer))
    {
      hide StreamsAgree, ConsumersAgree, Live;
      consumerDeliver := consumerDeliver[consumer := (policy, startSeq)];
    }

    method SetConsumerCursor(consumer: u32, lastAcked: u64)
      requires Valid()
      modifies this`consumerCursors
      ensures Valid() && consumerCursors == old(consumerCursors)[consumer := lastAcked]
      ensures old(CleanSlate()) ==> (CleanSlate() <==> Live(consumerPool.State(), consumer))
    {
      hide StreamsAgree, ConsumersAgree, Live;
      consumerCursors := consumerCursors[consumer := lastAcked];
    }

    method SetConsumerStream(consumer: u32, stream: u32)
      requires Valid()
      modifies this`consumerStream, this`hot
      ensures Valid() && consumerStream == PutAt(old(consumerStream), consumer as nat, stream, CONSUMER_STREAM_UNSET)
      ensures old(CleanSlate()) ==>
                (CleanSlate() <==> Live(consumerPool.State(), consumer) || stream == CONSUMER_STREAM_UNSET)
    {
      hide StreamsAgree, ConsumersAgree, Live;
      consumerStream := PutAt(consumerStream, consumer as nat, stream, CONSUMER_STREAM_UNSET);
      Publish();
      if !Live(consumerPool.State(), consumer) {
        assert GetAt(consumerStream, consumer as nat, CONSUMER_STREAM_UNSET) == stream;
      }
    }

    /** The owning stream of a consumer, from the hot snapshot. */
    method ConsumerStream(consumer: u32) returns (r: Option<u32>)
      requires Valid()
      ensures r == if GetAt(consumerStream, consumer as nat, CONSUMER_STREAM_UNSET) == CONSUMER_STREAM_UNSET then None
                   else Some(consumerStream[consumer])
      ensures CleanSlate() && !Live(consumerPool.State(), consumer) ==> r.None?
    {
      if consumer as nat >= |hot.consumerStream| {
        return None;
      }
      var slot := hot.consumerStream[consumer];
      r := if slot == CONSUMER_STREAM_UNSET then None else Some(slot);
    }
  }

  /** Fresh tables agree with a fresh stream pool and with a consumer pool whose slot 0 is burned. */
  lemma NothingRegistered(slots: u32)
    requires slots > 0
    ensures StreamsAgree(map[], [], IdPoolModel.New(slots)) && IdPoolModel.Sound(IdPoolModel.New(slots))
    ensures ConsumersAgree(map[], IdPoolModel.Alloc(IdPoolModel.New(slots)).0)
  {
  }

  /** Stream `id` is new, mapped from `wireId`, with no idempotency window and one replica; what is kept
      for every other stream is as it was. */
  ghost predicate Minted(before: StreamTable, after: StreamTable, wireId: u32, id: u32) {
    && after.byWire == before.byWire[wireId := id]
    && after.seqToWire == PutAt(before.seqToWire, id as nat, wireId, 0)
    && after.windowMs == PutAt(before.windowMs, id as nat, 0, 0)
    && after.replicas == PutAt(before.replicas, id as nat, 1, 1)
  }

  /** Everything kept for stream `id` is gone, and what is kept for every other stream is as it was. */
  ghost predicate Unminted(before: StreamTable, after: StreamTable, wireId: u32, id: u32) {
    && after.byWire == before.byWire - {wireId}
    && after.nameByWire == before.nameByWire - {wireId}
    && after.seqToWire == ResetAt(before.seqToWire, id as nat, 0)
    && after.windowMs == ResetAt(before.windowMs, id as nat, 0)
    && after.replicas == ResetAt(before.replicas, id as nat, 0)
    && after.filters == ResetAt(before.filters, id as nat, [])
  }

  /** The answers a create can give without creating: the id of the stream, under its own name or one
      never recorded; the collision sentinel, exactly for a wire id held under another name; or the full
      sentinel, for an unknown wire id when no slot is left. */
  ghost predicate Unchanged(t: StreamTable, wireId: u32, name: Bytes, id: u32)
    requires IdPoolModel.Valid(t.pool)
  {
    if wireId !in t.byWire then id == SLOT_FULL && IdPoolModel.Alloc(t.pool).1.Err?
    else if wireId in t.nameByWire && t.nameByWire[wireId] != name then id == COLLISION
    else id == t.byWire[wireId]
  }

  /** No stream or consumer ever has a sentinel for its id. */
  lemma SentinelsAreNeverLive(pool: Pool)
    requires IdPoolModel.Valid(pool) && pool.maxSlots == MAX_SLOT_COUNT
    ensures !Live(pool, SLOT_FULL) && !Live(pool, COLLISION) && SLOT_FULL != COLLISION
  {
  }

  /** Everything kept for consumer `id` is gone, and what is kept for the others is as it was. */
  ghost predicate Cleared(before: ConsumerTable, after: ConsumerTable, id: u32) {
    && after.queue == before.queue - {id}
    && after.deliver == before.deliver - {id}
    && after.cursors == before.cursors - {id}
    && after.stream == ResetAt(before.stream, id as nat, CONSUMER_STREAM_UNSET)
  }

  lemma StreamsAgreeIsValid(byWire: map<u32, u32>, seqToWire: seq<u32>, pool: Pool)
    requires StreamsAgree(byWire, seqToWire, pool)
    ensures IdPoolModel.Valid(pool)
  {
  }

  /** `claimed` has the claims in the order of the streams in `order`. */
  ghost predicate Lists(claims: map<u32, Bytes>, claimed: seq<Bytes>, order: seq<u32>) {
    && |claimed| == |order|
    && (forall i, j | 0 <= i < j < |order| :: order[i] != order[j])
    && (forall i | 0 <= i < |order| :: order[i] in claims && claimed[i] == claims[order[i]])
  }

  /** `claimed` has every claim once, in some order. */
  ghost predicate Enumerates(claims: map<u32, Bytes>, claimed: seq<Bytes>) {
    exists order: seq<u32> :: Lists(claims, claimed, order) && forall w | w in claims :: w in order
  }

  lemma ListedClaim(claims: map<u32, Bytes>, claimed: seq<Bytes>, order: seq<u32>, w: u32)
    requires Lists(claims, claimed, order) && w in claims && w in order
    ensures claims[w] in claimed
  {
    var i :| 0 <= i < |order| && order[i] == w;
    assert claimed[i] == claims[w];
  }

  lemma ListedValue(claims: map<u32, Bytes>, claimed: seq<Bytes>, order: seq<u32>, f: Bytes)
    requires Lists(claims, claimed, order) && f in claimed
    ensures f in claims.Values
  {
    var i :| 0 <= i < |claimed| && claimed[i] == f;
    assert order[i] in claims && claims[order[i]] == f;
  }

  lemma EnumeratedValues(claims: map<u32, Bytes>, claimed: seq<Bytes>)
    requires Enumerates(claims, claimed)
    ensures (set f | f in claimed) == claims.Values
  {
    hide Lists;
    var order: seq<u32> :| Lists(claims, claimed, order) && forall w | w in claims :: w in order;
    forall f | f in claims.Values ensures f in claimed {
      var w :| w in claims && claims[w] == f;
      ListedClaim(claims, claimed, order, w);
    }
    forall f | f in claimed ensures f in claims.Values {
      ListedValue(claims, claimed, order, f);
    }
  }

  lemma ClaimedAreMapped(byWire: map<u32, u32>, filters: seq<Bytes>)
    ensures var claims := ClaimsOf(byWire, filters);
            && claims.Keys <= byWire.Keys
            && forall w | w in byWire ::
                 var f := GetAt(filters, byWire[w] as nat, []);
                 (w in claims <==> f != []) && (w in claims ==> claims[w] == f)
  {
  }

  /** What a checked create answers. */
  datatype Admission<+E> = Granted(id: u32, created: bool) | Denied(violation: E)

  /** What the dispatcher answers. */
  datatype Reply = Invalid | Answered(admission: Admission<Violation>)

  /** The answer a checked create must give, read off the state before it and the two rulings. */
  ghost function Verdict<E>(t: StreamTable, wireId: u32, name: Bytes, check: Ruling<E>, recheck: Ruling<E>): Admission<E>
    requires IdPoolModel.Valid(t.pool)
  {
    if wireId in t.byWire then
      if wireId in t.nameByWire && t.nameByWire[wireId] != name then Granted(COLLISION, false)
      else
        match recheck
        case Refused(v) => Denied(v)
        case Admitted => Granted(t.byWire[wireId], false)
    else
      match check
      case Refused(v) => Denied(v)
      case Admitted =>
        match IdPoolModel.Alloc(t.pool).1
        case Err(_) => Granted(SLOT_FULL, false)
        case Ok(a) => Granted(a.0, true)
  }

  /** What a checked create answers, case by case: a collision whatever the rulings; for a known wire id the
      recheck decides and the id is its own; for an unknown one the check decides and the id, if a slot is
      left, was not live. */
  lemma VerdictMeans<E>(t: StreamTable, wireId: u32, name: Bytes, check: Ruling<E>, recheck: Ruling<E>)
    requires StreamsAgree(t.byWire, t.seqToWire, t.pool)
    ensures var r := Verdict(t, wireId, name, check, recheck);
            var known := wireId in t.byWire;
            var collides := known && wireId in t.nameByWire && t.nameByWire[wireId] != name;
            && (collides ==> r == Granted(COLLISION, false))
            && (known && !collides && recheck.Refused? ==> r == Denied(recheck.violation))
            && (known && !collides && recheck.Admitted? ==> r == Granted(t.byWire[wireId], false) && Live(t.pool, r.id))
            && (!known && check.Refused? ==> r == Denied(check.violation))
            && (!known && check.Admitted? ==>
                  r.Granted? && (r.created <==> ActiveCount(t.pool) < t.pool.maxSlots as int)
                  && (r.created ==> !Live(t.pool, r.id)) && (!r.created ==> r.id == SLOT_FULL))
  {
    StreamsAgreeIsValid(t.byWire, t.seqToWire, t.pool);
    AllocHandsOutDeadSlot(t.pool);
    ExhaustedWhenFull(t.pool);
    ActiveIsBounded(t.pool);
    hide IdPoolModel.Alloc, Live, ActiveCount, IdPoolModel.Valid;
  }

  lemma ActiveIsBounded(pool: Pool)
    requires IdPoolModel.Valid(pool)
    ensures ActiveCount(pool) <= pool.maxSlots as int
  {
  }

  /** What the broker's rules answer to a create of a stream that exists, under its own name: its own
      id when the request asks for the slice the stream claims or for none, else a refusal. No other
      stream's claim plays a part, and no claim moves. */
  lemma RecreateAnswers(t: StreamTable, wireId: u32, name: Bytes, filter: Bytes, room: bool)
    requires IdPoolModel.Valid(t.pool) && wireId in ClaimsOf(t.byWire, t.filters)
    requires wireId in t.nameByWire && t.nameByWire[wireId] == name
    ensures var claims := ClaimsOf(t.byWire, t.filters);
            var recheck := OnRecreate(filter, GetAt(t.filters, t.byWire[wireId] as nat, []));
            var answer := Verdict(t, wireId, name, RulingOn(filter, claims.Values), recheck);
            && Serve(claims, Create(wireId, filter, room)) == claims
            && answer == if filter == [] || filter == claims[wireId] then Granted(t.byWire[wireId], false)
                         else Denied(StreamFilterMismatch)
  {
    hide RulingOn;
  }

  lemma UnknownIsUnclaimed(t: StreamTable, wireId: u32)
    ensures wireId !in t.byWire ==> wireId !in ClaimsOf(t.byWire, t.filters)
  {
  }

  lemma AdmissibleIsBounded(claims: map<u32, Bytes>, filter: Bytes)
    requires Admissible(claims, filter)
    ensures filter != []
  {
  }

  /** A created stream claims its slice, and dead slots stay without one. */
  lemma FreshClaim(t: StreamTable, wireId: u32, id: u32, filter: Bytes)
    requires StreamsAgree(t.byWire, t.seqToWire, t.pool) && wireId !in t.byWire
    requires IdPoolModel.Alloc(t.pool).1.Ok? && IdPoolModel.Alloc(t.pool).1.value.0 == id
    ensures var filters := PutAt(t.filters, id as nat, filter, []);
            && ClaimsOf(t.byWire[wireId := id], filters) == WithClaim(ClaimsOf(t.byWire, t.filters), wireId, filter)
            && (FiltersAgree(t.filters, t.pool) ==> FiltersAgree(filters, IdPoolModel.Alloc(t.pool).0))
  {
    hide IdPoolModel.Alloc, Live, ClaimsOf, PutAt, FiltersAgree;
    AllocHandsOutDeadSlot(t.pool);
    if filter == [] {
      RegisterEmpty(t.byWire, t.seqToWire, t.filters, t.pool, wireId, id);
    } else {
      RegisterClaims(t.byWire, t.seqToWire, t.filters, t.pool, wireId, id, filter);
    }
    if FiltersAgree(t.filters, t.pool) {
      RegisterKeepsFilters(t.filters, t.pool, filter);
    }
  }

  lemma FreshClaimsNothing(t: StreamTable, wireId: u32, id: u32)
    requires StreamsAgree(t.byWire, t.seqToWire, t.pool) && wireId !in t.byWire
    requires IdPoolModel.Alloc(t.pool).1.Ok? && IdPoolModel.Alloc(t.pool).1.value.0 == id
    ensures FiltersAgree(t.filters, t.pool) ==>
              && ClaimsOf(t.byWire[wireId := id], t.filters) == ClaimsOf(t.byWire, t.filters)
              && FiltersAgree(t.filters, IdPoolModel.Alloc(t.pool).0)
  {
    hide IdPoolModel.Alloc, Live, ClaimsOf;
    AllocHandsOutDeadSlot(t.pool);
    if FiltersAgree(t.filters, t.pool) {
      RegisterUnclaimed(t.byWire, t.seqToWire, t.filters, t.pool, wireId, id);
    }
  }

  lemma ConsumersAgreeIsValid(byName: map<ConsumerKey, u32>, pool: Pool)
    requires ConsumersAgree(byName, pool)
    ensures IdPoolModel.Valid(pool)
  {
  }

  lemma NamedIffLive(byName: map<ConsumerKey, u32>, pool: Pool, id: u32)
    requires ConsumersAgree(byName, pool)
    ensures (exists k :: k in byName && byName[k] == id) <==> Live(pool, id) && id != 0
  {
  }

  /** The wire id of a removed stream no longer translates back, and the tables cover its slot. */
  lemma MappedIsListed(t: StreamTable, wireId: u32)
    requires StreamsAgree(t.byWire, t.seqToWire, t.pool) && wireId in t.byWire
    ensures t.byWire[wireId] as nat < |t.seqToWire|
  {
  }

  lemma ReleasedFilters(t: StreamTable, wireId: u32)
    requires StreamsAgree(t.byWire, t.seqToWire, t.pool) && wireId in t.byWire
    ensures FiltersAgree(t.filters, t.pool) ==>
              FiltersAgree(ResetAt(t.filters, t.byWire[wireId] as nat, []), IdPoolModel.Free(t.pool, t.byWire[wireId]).0)
  {
    hide IdPoolModel.Free, Live;
    FreeTakesLiveSlot(t.pool, t.byWire[wireId]);
  }
}
