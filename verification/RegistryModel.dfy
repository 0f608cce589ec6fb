/** The bookkeeping the name registry keeps beside its two slot pools, as values: what registering
    and unregistering do to it, and the invariants they keep. */
module RegistryModel {
  import opened Machine
  import opened IdPoolModel
  import opened SubjectModel

  /** `Vec::resize` up to index `i` if needed, then an assignment at `i`. */
  function PutAt<A>(s: seq<A>, i: nat, v: A, fill: A): (r: seq<A>)
    ensures i < |r| && r[i] == v && |s| <= |r|
    ensures forall j | 0 <= j < |s| && j != i :: r[j] == s[j]
    ensures forall j | |s| <= j < |r| && j != i :: r[j] == fill
  {
    if i < |s| then s[i := v] else s + seq(i - |s|, _ => fill) + [v]
  }

  function GetAt<A>(s: seq<A>, i: nat, default: A): A {
    if i < |s| then s[i] else default
  }

  /** An assignment at `i` if the vector reaches that far. */
  function ResetAt<A>(s: seq<A>, i: nat, v: A): (r: seq<A>)
    ensures |r| == |s| && (i < |s| ==> r[i] == v)
    ensures forall j | 0 <= j < |s| && j != i :: r[j] == s[j]
  {
    if i < |s| then s[i := v] else s
  }

  // ---------------------------------------------------------------------------
  // Streams
  // ---------------------------------------------------------------------------

  /** The forward and reverse tables and the pool agree: the live slots are exactly the mapped
      ones, each with the wire id that maps to it, and dead slots read zero. */
  ghost predicate StreamsAgree(byWire: map<u32, u32>, seqToWire: seq<u32>, pool: Pool) {
    && Valid(pool)
    && (forall w | w in byWire ::
          Live(pool, byWire[w]) && byWire[w] as nat < |seqToWire| && seqToWire[byWire[w]] == w)
    && (forall s: u32 | Live(pool, s) ::
          s as nat < |seqToWire| && seqToWire[s] in byWire && byWire[seqToWire[s]] == s)
    && (forall s: u32 | s as nat < |seqToWire| && !Live(pool, s) :: seqToWire[s] == 0)
  }

  lemma RegisterStream(byWire: map<u32, u32>, seqToWire: seq<u32>, pool: Pool, w: u32)
    requires StreamsAgree(byWire, seqToWire, pool) && w !in byWire && Alloc(pool).1.Ok?
    ensures var (pool', r) := Alloc(pool); var slot := r.value.0;
            StreamsAgree(byWire[w := slot], PutAt(seqToWire, slot as nat, w, 0), pool')
  {
    hide Alloc, Live, PutAt;
    AllocHandsOutDeadSlot(pool);
    LiveBound(pool);
  }

  lemma LiveBound(pool: Pool)
    ensures forall s: u32 | Live(pool, s) :: s as nat < |pool.generations|
  {
  }

  lemma UnregisterStream(byWire: map<u32, u32>, seqToWire: seq<u32>, pool: Pool, w: u32)
    requires StreamsAgree(byWire, seqToWire, pool) && w in byWire
    ensures Free(pool, byWire[w]).1.Ok?
    ensures StreamsAgree(byWire - {w}, seqToWire[byWire[w] as nat := 0], Free(pool, byWire[w]).0)
  {
    hide Free, Live;
    FreeTakesLiveSlot(pool, byWire[w]);
  }

  /** The two translations are inverse to each other on every non-zero wire id; a stream whose wire
      id is zero cannot be translated back. */
  lemma TranslationsInvert(byWire: map<u32, u32>, seqToWire: seq<u32>, pool: Pool, w: u32, s: u32)
    requires StreamsAgree(byWire, seqToWire, pool)
    ensures w != 0 ==> (w in byWire && byWire[w] == s <==> WireOf(seqToWire, s) == Some(w))
    ensures WireOf(seqToWire, s).None? <==> !Live(pool, s) || (0 in byWire && byWire[0] == s)
  {
  }

  /** The reverse translation: a zero entry means no stream. */
  function WireOf(seqToWire: seq<u32>, s: u32): Option<u32> {
    if GetAt(seqToWire, s as nat, 0) == 0 then None else Some(GetAt(seqToWire, s as nat, 0))
  }

  /** Slices are recorded for live streams only. */
  ghost predicate FiltersAgree(filters: seq<Bytes>, pool: Pool) {
    forall s: u32 | s as nat < |filters| && !Live(pool, s) :: filters[s] == []
  }

  /** The slice each live stream claims. */
  ghost function ClaimsOf(byWire: map<u32, u32>, filters: seq<Bytes>): map<u32, Bytes> {
    map w | w in byWire && GetAt(filters, byWire[w] as nat, []) != [] :: GetAt(filters, byWire[w] as nat, [])
  }

  /** Registering a stream with a slice adds that claim and no other. */
  lemma RegisterClaims(byWire: map<u32, u32>, seqToWire: seq<u32>, filters: seq<Bytes>, pool: Pool, w: u32, slot: u32, filter: Bytes)
    requires StreamsAgree(byWire, seqToWire, pool) && w !in byWire && !Live(pool, slot) && filter != []
    ensures ClaimsOf(byWire[w := slot], PutAt(filters, slot as nat, filter, [])) == ClaimsOf(byWire, filters)[w := filter]
  {
    var filters' := PutAt(filters, slot as nat, filter, []);
    forall x | x in byWire ensures GetAt(filters', byWire[x] as nat, []) == GetAt(filters, byWire[x] as nat, []) {
    }
  }

  /** Registering a stream without one claims nothing, provided dead slots hold nothing. */
  lemma RegisterUnclaimed(byWire: map<u32, u32>, seqToWire: seq<u32>, filters: seq<Bytes>, pool: Pool, w: u32, slot: u32)
    requires StreamsAgree(byWire, seqToWire, pool) && FiltersAgree(filters, pool) && w !in byWire && !Live(pool, slot)
    ensures ClaimsOf(byWire[w := slot], filters) == ClaimsOf(byWire, filters)
  {
  }

  /** Registering one with an empty slice claims nothing, whatever its slot held. */
  lemma RegisterEmpty(byWire: map<u32, u32>, seqToWire: seq<u32>, filters: seq<Bytes>, pool: Pool, w: u32, slot: u32)
    requires StreamsAgree(byWire, seqToWire, pool) && w !in byWire && !Live(pool, slot)
    ensures ClaimsOf(byWire[w := slot], PutAt(filters, slot as nat, [], [])) == ClaimsOf(byWire, filters)
  {
    var filters' := PutAt(filters, slot as nat, [], []);
    forall x | x in byWire ensures GetAt(filters', byWire[x] as nat, []) == GetAt(filters, byWire[x] as nat, []) {
    }
  }

  /** A slice recorded for a slot just handed out leaves dead slots without one. */
  lemma RegisterKeepsFilters(filters: seq<Bytes>, pool: Pool, filter: Bytes)
    requires Valid(pool) && FiltersAgree(filters, pool) && Alloc(pool).1.Ok?
    ensures FiltersAgree(PutAt(filters, Alloc(pool).1.value.0 as nat, filter, []), Alloc(pool).0)
  {
    hide Alloc, Live, PutAt;
    AllocHandsOutDeadSlot(pool);
  }

  lemma UnregisterClaims(byWire: map<u32, u32>, seqToWire: seq<u32>, filters: seq<Bytes>, pool: Pool, w: u32)
    requires StreamsAgree(byWire, seqToWire, pool) && w in byWire
    ensures ClaimsOf(byWire - {w}, ResetAt(filters, byWire[w] as nat, [])) == ClaimsOf(byWire, filters) - {w}
  {
    var filters' := ResetAt(filters, byWire[w] as nat, []);
    forall x | x in byWire && x != w ensures GetAt(filters', byWire[x] as nat, []) == GetAt(filters, byWire[x] as nat, []) {
      assert byWire[x] != byWire[w];
    }
  }

  // ---------------------------------------------------------------------------
  // Consumers
  // ---------------------------------------------------------------------------

  type ConsumerKey = (u32, Bytes)

  /** Slot 0 is burned; the other live slots are exactly the ids of the named consumers, and no two
      names share one. */
  ghost predicate ConsumersAgree(byName: map<ConsumerKey, u32>, pool: Pool) {
    && Valid(pool)
    && Live(pool, 0)
    && (forall k | k in byName :: Live(pool, byName[k]) && byName[k] != 0)
    && (forall k, j | k in byName && j in byName && byName[k] == byName[j] :: k == j)
    && (forall s: u32 | Live(pool, s) && s != 0 :: exists k :: k in byName && byName[k] == s)
  }

  lemma RegisterConsumer(byName: map<ConsumerKey, u32>, pool: Pool, k: ConsumerKey)
    requires ConsumersAgree(byName, pool) && k !in byName && Alloc(pool).1.Ok?
    ensures var (pool', r) := Alloc(pool); ConsumersAgree(byName[k := r.value.0], pool') && r.value.0 != 0
  {
    hide Alloc, Live;
    AllocHandsOutDeadSlot(pool);
    var (pool', r) := Alloc(pool);
    var byName' := byName[k := r.value.0];
    forall s: u32 | Live(pool', s) && s != 0 ensures exists j :: j in byName' && byName'[j] == s {
      if s == r.value.0 {
        assert k in byName' && byName'[k] == s;
      } else {
        var j :| j in byName && byName[j] == s;
        assert j in byName' && byName'[j] == s;
      }
    }
  }

  lemma UnregisterConsumer(byName: map<ConsumerKey, u32>, pool: Pool, k: ConsumerKey)
    requires ConsumersAgree(byName, pool) && k in byName
    ensures Free(pool, byName[k]).1.Ok?
    ensures ConsumersAgree(byName - {k}, Free(pool, byName[k]).0)
  {
    hide Free, Live;
    FreeTakesLiveSlot(pool, byName[k]);
    var pool' := Free(pool, byName[k]).0;
    var byName' := byName - {k};
    forall s: u32 | Live(pool', s) && s != 0 ensures exists j :: j in byName' && byName'[j] == s {
      var j :| j in byName && byName[j] == s;
      assert j in byName' && byName'[j] == s;
    }
  }
}
