/** Where the relay's two assumptions on commitments come from: if SHA-256 does not collide on what is hashed
    for the objects of a run, a commitment determines its object's segment and nonce key. */
module RelayBinding {
  import opened Wrappers
  import opened Text
  import opened Crypto
  import opened Layout
  import C = Canonical
  import R = RelayStore
  import L = RelaySchedules

  /** What the relay reads off the fields of an object: its parsed time, the trust id that gives its shard and, of
      an event, the nonce key. */
  datatype Reading = Reading(time: Option<int>, owner: Text, nonceKey: R.NonceKey)

  /** A reading of every kind of object, `None` being events, by its unsigned fields. */
  type Reader = (Option<Kind>, C.Value) -> Reading

  ghost function Read(reader: Reader, o: LogObject): Reading {
    reader(if o.LogEvent? then None else Some(o.kind), Payload(o))
  }

  function StoreKind(kind: Kind): R.Kind {
    match kind
    case ReceiptKind => R.Receipt
    case AttestationKind => R.Attestation
    case RevocationKind => R.Revocation
  }

  ghost predicate AllEncodable(objects: set<LogObject>) {
    forall o | o in objects :: ObjectEncodable(o)
  }

  /** The action offers one of the objects to the relay. */
  ghost predicate Offers(sha: Bytes -> Hash, reader: Reader, o: LogObject, a: R.Action<Hash>)
    requires ObjectEncodable(o)
  {
    match a
    case BeginAccept(e, _) =>
      && o.LogEvent? && e.commitment == LogCommitment(sha, o)
      && e.time == Read(reader, o).time && e.sender == Read(reader, o).owner && R.NonceOf(e) == Read(reader, o).nonceKey
    case AddObject(kind, commitment, time, owner) =>
      && o.LogOther? && kind == StoreKind(o.kind) && commitment == LogCommitment(sha, o)
      && Some(time) == Read(reader, o).time && owner == Read(reader, o).owner
    case _ => false
  }

  /** Every action that offers something offers one of the objects. */
  ghost predicate OnlyOffers(sha: Bytes -> Hash, reader: Reader, objects: set<LogObject>, actions: seq<R.Action<Hash>>)
    requires AllEncodable(objects)
  {
    forall a | a in actions && (a.BeginAccept? || a.AddObject?) :: exists o | o in objects :: Offers(sha, reader, o, a)
  }

  /** Everything hashed for the commitments of the objects. */
  ghost function AllMessages(sha: Bytes -> Hash, objects: set<LogObject>): set<Bytes>
    requires AllEncodable(objects)
  {
    set o, m | o in objects && m in ObjectMessages(sha, o) :: m
  }

  /** The reading of some object with this commitment. */
  ghost function ReadingOf(sha: Bytes -> Hash, reader: Reader, objects: set<LogObject>, h: Hash): Reading
    requires AllEncodable(objects)
  {
    if o :| o in objects && LogCommitment(sha, o) == h then Read(reader, o) else Reading(None, [], [])
  }

  ghost function SegmentIn(cfg: R.Config<Hash>, r: Reading): R.Segment
    requires R.ValidConfig(cfg)
  {
    if r.time.Some? then R.SegmentOf(cfg, r.time.value, r.owner) else R.Segment(0, [])
  }

  lemma ReadingIsFixed(sha: Bytes -> Hash, reader: Reader, objects: set<LogObject>, o: LogObject)
    requires AllEncodable(objects) && o in objects && CollisionFree(sha, AllMessages(sha, objects))
    ensures ReadingOf(sha, reader, objects, LogCommitment(sha, o)) == Read(reader, o)
  {
    hide LogCommitment, ObjectMessages, ObjectEncodable, CollisionFree, Payload;
    var h := LogCommitment(sha, o);
    forall p | p in objects && LogCommitment(sha, p) == h ensures Read(reader, p) == Read(reader, o) {
      CollisionFreeSubset(sha, AllMessages(sha, objects), ObjectMessages(sha, p) + ObjectMessages(sha, o));
      LogCommitmentBinds(sha, p, o);
    }
  }

  /** The assumptions of the relay's runs follow: there are a home and a nonce key for every commitment. */
  lemma RunsAreFixed(cfg: R.Config<Hash>, sha: Bytes -> Hash, reader: Reader, objects: set<LogObject>,
      actions: seq<R.Action<Hash>>)
    requires R.ValidConfig(cfg) && AllEncodable(objects) && OnlyOffers(sha, reader, objects, actions)
    requires CollisionFree(sha, AllMessages(sha, objects))
    ensures exists home: Hash -> R.Segment, nonceOf: Hash -> R.NonceKey :: L.AllFixed(cfg, home, nonceOf, actions)
  {
    hide CollisionFree, ReadingOf, LogCommitment, R.SegmentOf, R.NonceOf, AllMessages, ObjectEncodable, Payload;
    var home := (h: Hash) => SegmentIn(cfg, ReadingOf(sha, reader, objects, h));
    var nonceOf := (h: Hash) => ReadingOf(sha, reader, objects, h).nonceKey;
    forall a | a in actions ensures L.Fixed(cfg, home, nonceOf, a) {
      if a.BeginAccept? || a.AddObject? {
        var o :| o in objects && Offers(sha, reader, o, a);
        ReadingIsFixed(sha, reader, objects, o);
      }
    }
    assert L.AllFixed(cfg, home, nonceOf, actions);
  }
}
