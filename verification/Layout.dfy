/** What exactly is handed to SHA-256 for each kind of hashed object. If SHA-256 does not collide on
    those byte strings, the hashes of the structures built on it do not collide either. */
module Layout {
  import H = Hashing
  import opened Wrappers
  import opened Text
  import opened Crypto
  import C = Canonical
  import M = MerkleLog
  import S = SparseMerkle
  import K = Consistency

  // ---------- Hexadecimal text ----------

  function HexDigits(b: Bytes): Text {
    if b == [] then [] else
      var first: int := b[0];
      [C.HexDigit(first / 16), C.HexDigit(first % 16)] + HexDigits(b[1..])
  }

  function HexText(b: Bytes): Text {
    [0x30, 0x78] + HexDigits(b)
  }

  lemma {:induction false} HexDigitsInjective(a: Bytes, b: Bytes)
    requires HexDigits(a) == HexDigits(b)
    ensures a == b
  {
    if a != [] && b != [] {
      var s, t := HexDigits(a), HexDigits(b);
      var x: int, y: int := a[0], b[0];
      assert s[0] == t[0] && s[1] == t[1];
      C.HexDigitRoundTrip(x / 16);
      C.HexDigitRoundTrip(x % 16);
      C.HexDigitRoundTrip(y / 16);
      C.HexDigitRoundTrip(y % 16);
      assert s[2..] == HexDigits(a[1..]) && t[2..] == HexDigits(b[1..]);
      HexDigitsInjective(a[1..], b[1..]);
    }
  }

  /** The bytes that pairs of hexadecimal digits stand for, the higher digit first. */
  ghost function FromHex(t: Text): seq<int> {
    if |t| < 2 then [] else [C.HexValue(t[0]) * 16 + C.HexValue(t[1])] + FromHex(t[2..])
  }

  /** Hexadecimal text is two lower-case digits a byte after 0x, and stands for the bytes. */
  lemma HexReads(b: Bytes)
    ensures HexText(b)[..2] == Word("0x") && HexText(b)[2..] == HexDigits(b)
    ensures |HexDigits(b)| == 2 * |b| && FromHex(HexDigits(b)) == b
    ensures forall i | 0 <= i < |HexDigits(b)| :: C.LowerHex(HexDigits(b)[i])
  {
    assert Word("0x") == [0x30, 0x78];
    DigitsRead(b);
  }

  lemma {:induction false} DigitsRead(b: Bytes)
    ensures |HexDigits(b)| == 2 * |b| && FromHex(HexDigits(b)) == b
    ensures forall i | 0 <= i < |HexDigits(b)| :: C.LowerHex(HexDigits(b)[i])
  {
    if b != [] {
      DigitsRead(b[1..]);
      var x: int := b[0];
      C.HexDigitRoundTrip(x / 16);
      C.HexDigitRoundTrip(x % 16);
      assert HexDigits(b)[2..] == HexDigits(b[1..]);
      assert b == [b[0]] + b[1..];
    }
  }

  lemma HexInjective(a: Bytes, b: Bytes)
    requires HexText(a) == HexText(b)
    ensures a == b
  {
    assert HexText(a)[2..] == HexDigits(a) && HexText(b)[2..] == HexDigits(b);
    HexDigitsInjective(a, b);
  }

  // ---------- Objects with known field names ----------

  /** ASCII text as code units. */
  function Word(s: string): (t: Text)
    ensures |t| == |s|
  {
    seq(|s|, i requires 0 <= i < |s| => if s[i] as int < 128 then s[i] as int else 0x3f)
  }

  /** ASCII text is its own UTF-8. */
  lemma {:induction false} WordIsAscii(s: string)
    requires forall i | 0 <= i < |s| :: 0 < s[i] as int < 128
    ensures Utf8(Word(s)) == Ascii(s)
  {
    if s != [] {
      WordIsAscii(s[1..]);
      assert Word(s)[1..] == Word(s[1..]);
      assert Ascii(s) == [s[0] as int] + Ascii(s[1..]);
    }
  }

  /** An object with some of these fields; a missing one has no entry. */
  ghost function Record(names: seq<string>, values: seq<Option<C.Value>>): map<Text, C.Value>
    requires |names| == |values|
  {
    if names == [] then map[] else
      var n := |names| - 1;
      var before := Record(names[..n], values[..n]);
      if values[n].None? then before else before[Word(names[n]) := values[n].value]
  }

  ghost predicate Distinct(names: seq<string>) {
    forall i, j | 0 <= i < j < |names| :: Word(names[i]) != Word(names[j])
  }

  lemma {:induction false} RecordKeys(names: seq<string>, values: seq<Option<C.Value>>)
    requires |names| == |values|
    ensures forall k | k in Record(names, values) :: exists i | 0 <= i < |names| :: Word(names[i]) == k
  {
    hide Word;
    if names != [] {
      var n := |names| - 1;
      RecordKeys(names[..n], values[..n]);
      forall k | k in Record(names, values) ensures exists i | 0 <= i < |names| :: Word(names[i]) == k {
        if k in Record(names[..n], values[..n]) {
          var i :| 0 <= i < n && Word(names[..n][i]) == k;
          assert names[i] == names[..n][i];
        }
      }
    }
  }

  lemma {:induction false} RecordAt(names: seq<string>, values: seq<Option<C.Value>>, i: nat)
    requires |names| == |values| && Distinct(names) && i < |names|
    ensures values[i].Some? <==> Word(names[i]) in Record(names, values)
    ensures values[i].Some? ==> Record(names, values)[Word(names[i])] == values[i].value
    decreases |names|
  {
    hide Word;
    var n := |names| - 1;
    if i < n {
      RecordAt(names[..n], values[..n], i);
      assert Word(names[i]) != Word(names[n]);
    } else {
      RecordKeys(names[..n], values[..n]);
    }
  }

  /** A record determines which fields are there and what they hold. */
  lemma RecordInjective(names: seq<string>, v: seq<Option<C.Value>>, w: seq<Option<C.Value>>)
    requires |names| == |v| == |w| && Distinct(names) && Record(names, v) == Record(names, w)
    ensures v == w
  {
    hide Word, Record, Distinct;
    forall i: nat | i < |names| ensures v[i] == w[i] {
      RecordAt(names, v, i);
      RecordAt(names, w, i);
    }
  }

  ghost predicate AllAccepted(values: seq<Option<C.Value>>) {
    forall i | 0 <= i < |values| :: values[i].Some? ==> C.Accepted(values[i].value)
  }

  lemma {:induction false} RecordAccepted(names: seq<string>, values: seq<Option<C.Value>>)
    requires |names| == |values| && AllAccepted(values)
    ensures C.Accepted(C.Obj(Record(names, values)))
  {
    hide Word;
    if names != [] {
      var n := |names| - 1;
      assert AllAccepted(values[..n]);
      RecordAccepted(names[..n], values[..n]);
      assert forall k | k in Record(names[..n], values[..n]) :: C.Accepted(Record(names[..n], values[..n])[k]);
    }
  }

  /** A tagged canonical object. */
  ghost function ObjectMessage(tag: string, names: seq<string>, values: seq<Option<C.Value>>): Bytes
    requires |names| == |values| && AllAccepted(values)
  {
    RecordAccepted(names, values);
    C.EncodesAccepted(C.Obj(Record(names, values)));
    DomainMessage(Ascii(tag), CanonicalBytes(C.Obj(Record(names, values))))
  }

  lemma ObjectMessageInjective(tag: string, names: seq<string>, v: seq<Option<C.Value>>, w: seq<Option<C.Value>>)
    requires |names| == |v| == |w| && AllAccepted(v) && AllAccepted(w) && Distinct(names)
    requires ObjectMessage(tag, names, v) == ObjectMessage(tag, names, w)
    ensures v == w
  {
    hide Record, Distinct, AllAccepted, C.Accepted, C.Encode, CanonicalBytes, DomainMessage;
    var a, b := C.Obj(Record(names, v)), C.Obj(Record(names, w));
    RecordAccepted(names, v);
    RecordAccepted(names, w);
    C.EncodesAccepted(a);
    C.EncodesAccepted(b);
    DomainSeparated(Ascii(tag), CanonicalBytes(a), Ascii(tag), CanonicalBytes(b));
    CanonicalBytesInjective(a, b);
    RecordInjective(names, v, w);
  }

  function Int(n: int): C.Value {
    C.Num(C.Integer(n))
  }

  function Hex(b: Bytes): C.Value {
    C.Str(HexText(b))
  }

  // ---------- The Merkle log ----------

  const LEAF_TAG := "tsl.merkle.leaf.v1"
  const NODE_TAG := "tsl.merkle.node.v1"

  function LogMessage(q: M.Query<Hash>): Bytes {
    match q
    case LeafQuery(i, c) => DomainMessage(Ascii(LEAF_TAG), Uint64be(i) + c)
    case NodeQuery(l, r) => DomainMessage(Ascii(NODE_TAG), l + r)
  }

  /** Indexes outside 64 bits are refused before anything is hashed. */
  ghost predicate LogEncodable(q: M.Query<Hash>) {
    q.LeafQuery? ==> q.index < UINT64_LIMIT
  }

  /** A leaf is hashed as its tag, a zero byte, the index in eight bytes and the commitment; a node as its tag, a zero
      byte and its two children, left one first. */
  lemma LogLayout(i: nat, c: Hash, l: Hash, r: Hash)
    requires i < UINT64_LIMIT
    ensures var m := LogMessage(M.LeafQuery(i, c));
      |m| == 59 && m[..18] == Ascii("tsl.merkle.leaf.v1") && m[18] == 0 && FromBigEndian(m[19..27]) == i && m[27..] == c
    ensures var m := LogMessage(M.NodeQuery(l, r));
      |m| == 83 && m[..18] == Ascii("tsl.merkle.node.v1") && m[18] == 0 && m[19..51] == l && m[51..] == r
  {
    hide Uint64be, Ascii, BigEndian;
    var m, n := LogMessage(M.LeafQuery(i, c)), LogMessage(M.NodeQuery(l, r));
    assert m[19..27] == Uint64be(i) && m[27..] == c && m[..18] == Ascii(LEAF_TAG);
    assert n[19..51] == l && n[51..] == r && n[..18] == Ascii(NODE_TAG);
    Uint64beReads(i);
  }

  lemma Uint64beReads(n: nat)
    requires n < UINT64_LIMIT
    ensures FromBigEndian(Uint64be(n)) == n
  {
    assert Power256(8) == UINT64_LIMIT by {
      assert Power256(2) == 0x1_0000;
      assert Power256(4) == 0x1_0000_0000;
      assert Power256(6) == 0x1_0000_0000_0000;
    }
    BigEndianRoundTrip(n, 8);
  }

  lemma LogMessageInjective(q: M.Query<Hash>, r: M.Query<Hash>)
    requires LogEncodable(q) && LogEncodable(r) && LogMessage(q) == LogMessage(r)
    ensures q == r
  {
    hide DomainMessage, Uint64be;
    assert Ascii(LEAF_TAG)[11] == 0x6c && Ascii(NODE_TAG)[11] == 0x6e;
    DomainSeparated(LogTag(q), LogPayload(q), LogTag(r), LogPayload(r));
    if q.LeafQuery? {
      var a, b := LogPayload(q), LogPayload(r);
      assert a[..8] == Uint64be(q.index) && b[..8] == Uint64be(r.index) && a[8..] == q.commitment &&
          b[8..] == r.commitment;
      Uint64beInjective(q.index, r.index);
    } else {
      var a, b := LogPayload(q), LogPayload(r);
      assert a[..32] == q.left && b[..32] == r.left && a[32..] == q.right && b[32..] == r.right;
    }
  }

  ghost function LogTag(q: M.Query<Hash>): Bytes {
    Ascii(if q.LeafQuery? then LEAF_TAG else NODE_TAG)
  }

  ghost function LogPayload(q: M.Query<Hash>): Bytes {
    if q.LeafQuery? then Uint64be(q.index) + q.commitment else q.left + q.right
  }

  function LogHash(sha: Bytes -> Hash): M.Query<Hash> -> Hash {
    q => sha(LogMessage(q))
  }

  ghost function LogMessages(queries: set<M.Query<Hash>>): set<Bytes> {
    set q | q in queries :: LogMessage(q)
  }

  /** From SHA-256 to the log: no collision on the byte strings, no collision on what they encode. */
  lemma LogCollisionFree(sha: Bytes -> Hash, queries: set<M.Query<Hash>>)
    requires CollisionFree(sha, LogMessages(queries)) && forall q | q in queries :: LogEncodable(q)
    ensures H.CollisionFree(LogHash(sha), ZERO_HASH, queries)
  {
    hide LogMessage, LogEncodable;
    forall q, r | q in queries && r in queries && LogHash(sha)(q) == LogHash(sha)(r) ensures q == r {
      assert LogMessage(q) in LogMessages(queries) && LogMessage(r) in LogMessages(queries);
      LogMessageInjective(q, r);
    }
    forall q | q in queries ensures LogHash(sha)(q) != ZERO_HASH {
      assert LogMessage(q) in LogMessages(queries);
    }
  }

  lemma {:induction false} TreeEncodable(hash: M.Query<Hash> -> Hash, cs: seq<Hash>, start: nat)
    requires cs != [] && start + |cs| <= UINT64_LIMIT
    ensures forall q | q in M.TreeQueries(hash, cs, start) :: LogEncodable(q)
    decreases |cs|
  {
    hide M.TreeQueries, M.TopQuery, M.Split, M.RootFrom;
    M.TreeQueriesAre(hash, cs, start);
    M.TopShape(hash, cs, start);
    if |cs| > 1 {
      var k := M.Split(|cs|);
      TreeEncodable(hash, cs[..k], start);
      TreeEncodable(hash, cs[k..], start + k);
    }
  }

  lemma {:induction false} PathEncodable(hash: M.Query<Hash> -> Hash, current: Hash, path: seq<M.Step<Hash>>)
    ensures forall q | q in M.PathQueries(hash, current, path) :: LogEncodable(q)
  {
    if path != [] { PathEncodable(hash, current, path[..|path| - 1]); }
  }

  lemma LogEncodables(hash: M.Query<Hash> -> Hash, cs: seq<Hash>, proof: M.Proof<Hash>)
    requires |cs| <= UINT64_LIMIT && proof.leafIndex < UINT64_LIMIT
    ensures forall q | q in M.LogQueries(hash, cs) + M.ProofQueries(hash, proof) :: LogEncodable(q)
  {
    hide M.TreeQueries, M.PathQueries;
    if cs != [] { TreeEncodable(hash, cs, 0); }
    PathEncodable(hash, proof.leafHash, proof.path);
  }

  // ---------- Event commitments ----------

  /** A signed event: its fields, the signature among them as text, and the signature's bytes. */
  datatype Event = Event(fields: map<Text, C.Value>, signature: Bytes)

  const EVENT_TAG := "tsl.event_commitment.v1"
  const COMMITMENT_TAG := "tsl.commitment.v1"

  ghost function Unsigned(e: Event): C.Value {
    C.Obj(C.Without(e.fields, Word("signature")))
  }

  ghost predicate EventEncodable(e: Event) {
    C.Encode(Unsigned(e)).Ok?
  }

  ghost function EventMessage(e: Event): Bytes
    requires EventEncodable(e)
  {
    DomainMessage(Ascii(EVENT_TAG), CanonicalBytes(Unsigned(e)))
  }

  /** What is hashed of an event: its tag, a zero byte, and the canonical text of its defined fields but the
      signature. */
  lemma EventLayout(e: Event)
    requires EventEncodable(e)
    ensures var m := EventMessage(e);
      |m| >= 24 && m[..23] == Ascii("tsl.event_commitment.v1") && m[23] == 0 && m[24..] == CanonicalBytes(Unsigned(e))
    ensures Unsigned(e).Obj?
    ensures forall k :: k in Unsigned(e).fields <==>
      k in e.fields && k != Word("signature") && !e.fields[k].Undefined?
    ensures forall k | k in Unsigned(e).fields :: Unsigned(e).fields[k] == e.fields[k]
  {
    hide Ascii, CanonicalBytes, Word, C.Encode;
    var m := EventMessage(e);
    assert m[..23] == Ascii(EVENT_TAG) && m[24..] == CanonicalBytes(Unsigned(e));
  }

  /** The current form tags the commitment; the legacy one does not. */
  datatype Form = Current | Legacy

  function CommitmentMessage(form: Form, eventHash: Hash, signature: Bytes): Bytes {
    if form == Current then DomainMessage(Ascii(COMMITMENT_TAG), eventHash + signature) else eventHash + signature
  }

  ghost function Commitment(sha: Bytes -> Hash, form: Form, e: Event): Hash
    requires EventEncodable(e)
  {
    sha(CommitmentMessage(form, sha(EventMessage(e)), e.signature))
  }

  ghost function CommitmentMessages(sha: Bytes -> Hash, form: Form, e: Event): set<Bytes>
    requires EventEncodable(e)
  {
    {EventMessage(e), CommitmentMessage(form, sha(EventMessage(e)), e.signature)}
  }

  /** A commitment is hashed as the event hash and the signature, after the tag and a zero byte in the current form. */
  lemma CommitmentLayout(h: Hash, s: Bytes)
    ensures var m := CommitmentMessage(Current, h, s);
      |m| >= 50 && m[..17] == Ascii("tsl.commitment.v1") && m[17] == 0 && m[18..50] == h && m[50..] == s
    ensures var m := CommitmentMessage(Legacy, h, s); |m| >= 32 && m[..32] == h && m[32..] == s
  {
    hide Ascii;
    var m := CommitmentMessage(Current, h, s);
    assert m[..17] == Ascii(COMMITMENT_TAG) && m[18..50] == h && m[50..] == s;
  }

  /** Begins like a tagged commitment message. */
  ghost predicate TagLike(h: Hash) {
    h[..|COMMITMENT_TAG| + 1] == Ascii(COMMITMENT_TAG) + [0]
  }

  /** Two commitments cannot be one byte string in two forms: the forms are the same, or the signatures are of
      one length, as Ed25519 signatures are, or neither event hash begins like a tag. */
  ghost predicate FormsApart(form: Form, h: Hash, s: Bytes, form': Form, h': Hash, s': Bytes) {
    form == form' || |s| == |s'| || (!TagLike(h) && !TagLike(h'))
  }

  lemma CommitmentMessageInjective(form: Form, h: Hash, s: Bytes, form': Form, h': Hash, s': Bytes)
    requires FormsApart(form, h, s, form', h', s')
    requires CommitmentMessage(form, h, s) == CommitmentMessage(form', h', s')
    ensures form == form' && h == h' && s == s'
  {
    if form != form' {
      if form == Current { MixedForms(h, s, h', s'); } else { MixedForms(h', s', h, s); }
    }
    if form == Current {
      DomainSeparated(Ascii(COMMITMENT_TAG), h + s, Ascii(COMMITMENT_TAG), h' + s');
    }
    assert (h + s)[..32] == h && (h' + s')[..32] == h' && (h + s)[32..] == s && (h' + s')[32..] == s';
  }

  /** A current commitment message that is also a legacy one is longer in its signature part, and the legacy
      one's event hash begins like a tag. */
  lemma MixedForms(h: Hash, s: Bytes, h': Hash, s': Bytes)
    requires CommitmentMessage(Current, h, s) == CommitmentMessage(Legacy, h', s')
    ensures |s| != |s'| && TagLike(h')
  {
    var m := CommitmentMessage(Current, h, s);
    var n := |COMMITMENT_TAG| + 1;
    assert m[..n] == Ascii(COMMITMENT_TAG) + [0];
    assert m[..n] == h'[..n];
  }

  /** A commitment of either form determines the signed event: every field and the signature. */
  lemma CommitmentBindsEvent(sha: Bytes -> Hash, form: Form, e: Event, form': Form, e': Event)
    requires EventEncodable(e) && EventEncodable(e')
    requires FormsApart(form, sha(EventMessage(e)), e.signature, form', sha(EventMessage(e')), e'.signature)
    requires Commitment(sha, form, e) == Commitment(sha, form', e')
    requires CollisionFree(sha, CommitmentMessages(sha, form, e) + CommitmentMessages(sha, form', e'))
    ensures form == form' && e.signature == e'.signature && Unsigned(e) == Unsigned(e')
  {
    hide CommitmentMessage, EventMessage, EventEncodable, Unsigned, FormsApart;
    assert CommitmentMessage(form, sha(EventMessage(e)), e.signature) in CommitmentMessages(sha, form, e);
    assert CommitmentMessage(form', sha(EventMessage(e')), e'.signature) in CommitmentMessages(sha, form', e');
    CommitmentMessageInjective(form, sha(EventMessage(e)), e.signature, form', sha(EventMessage(e')), e'.signature);
    assert EventMessage(e) in CommitmentMessages(sha, form, e) &&
        EventMessage(e') in CommitmentMessages(sha, form', e');
    EventMessageInjective(e, e');
  }

  lemma EventMessageInjective(e: Event, e': Event)
    requires EventEncodable(e) && EventEncodable(e') && EventMessage(e) == EventMessage(e')
    ensures Unsigned(e) == Unsigned(e')
  {
    hide Unsigned, CanonicalBytes, C.Encode;
    DomainSeparated(Ascii(EVENT_TAG), CanonicalBytes(Unsigned(e)), Ascii(EVENT_TAG), CanonicalBytes(Unsigned(e')));
    CanonicalBytesInjective(Unsigned(e), Unsigned(e'));
  }

  // ---------- Other log objects ----------

  datatype Kind = ReceiptKind | AttestationKind | RevocationKind

  /** What a relay logs: signed events, and receipts, attestations and revocations by their fields. */
  datatype LogObject = LogEvent(event: Event) | LogOther(kind: Kind, fields: map<Text, C.Value>)

  ghost function KindTag(kind: Kind): string {
    match kind
    case ReceiptKind => "tsl.receipt_commitment.v1"
    case AttestationKind => "tsl.attestation.v1"
    case RevocationKind => "tsl.revocation.v1"
  }

  ghost function Payload(o: LogObject): C.Value {
    if o.LogEvent? then Unsigned(o.event) else C.Obj(C.Without(o.fields, Word("signature")))
  }

  ghost predicate ObjectEncodable(o: LogObject) {
    C.Encode(Payload(o)).Ok?
  }

  /** The last message hashed for the object's commitment. */
  ghost function LastMessage(sha: Bytes -> Hash, o: LogObject): Bytes
    requires ObjectEncodable(o)
  {
    match o
    case LogEvent(e) => CommitmentMessage(Current, sha(EventMessage(e)), e.signature)
    case LogOther(kind, _) => DomainMessage(Ascii(KindTag(kind)), CanonicalBytes(Payload(o)))
  }

  ghost function LogCommitment(sha: Bytes -> Hash, o: LogObject): Hash
    requires ObjectEncodable(o)
  {
    sha(LastMessage(sha, o))
  }

  ghost function ObjectMessages(sha: Bytes -> Hash, o: LogObject): set<Bytes>
    requires ObjectEncodable(o)
  {
    {LastMessage(sha, o)} + if o.LogEvent? then {EventMessage(o.event)} else {}
  }

  ghost predicate SameKind(o: LogObject, o': LogObject) {
    o.LogEvent? == o'.LogEvent? && (o.LogOther? ==> o.kind == o'.kind)
  }

  /** The commitments a relay logs determine the kind and the payload of what was committed to. */
  lemma LogCommitmentBinds(sha: Bytes -> Hash, o: LogObject, o': LogObject)
    requires ObjectEncodable(o) && ObjectEncodable(o') && LogCommitment(sha, o) == LogCommitment(sha, o')
    requires CollisionFree(sha, ObjectMessages(sha, o) + ObjectMessages(sha, o'))
    ensures SameKind(o, o') && Payload(o) == Payload(o')
  {
    hide EventMessage, CanonicalBytes, Unsigned, C.Encode, CommitmentMessage;
    assert LastMessage(sha, o) in ObjectMessages(sha, o) && LastMessage(sha, o') in ObjectMessages(sha, o');
    assert LastMessage(sha, o) == LastMessage(sha, o');
    TagsApart(sha, o, o');
    if o.LogEvent? {
      var e, e' := o.event, o'.event;
      assert EventMessage(e) in ObjectMessages(sha, o) && EventMessage(e') in ObjectMessages(sha, o');
      CommitmentMessageInjective(Current, sha(EventMessage(e)), e.signature, Current, sha(EventMessage(e')),
          e'.signature);
      EventMessageInjective(e, e');
    } else {
      DomainSeparated(Ascii(KindTag(o.kind)), CanonicalBytes(Payload(o)), Ascii(KindTag(o'.kind)),
          CanonicalBytes(Payload(o')));
      CanonicalBytesInjective(Payload(o), Payload(o'));
    }
  }

  ghost function LastTag(o: LogObject): string {
    if o.LogEvent? then COMMITMENT_TAG else KindTag(o.kind)
  }

  lemma TagsApart(sha: Bytes -> Hash, o: LogObject, o': LogObject)
    requires ObjectEncodable(o) && ObjectEncodable(o') && LastMessage(sha, o) == LastMessage(sha, o')
    ensures SameKind(o, o')
  {
    hide EventMessage, CanonicalBytes, Unsigned, C.Encode, DomainMessage, Ascii;
    DomainSeparated(Ascii(LastTag(o)), LastPayload(sha, o), Ascii(LastTag(o')), LastPayload(sha, o'));
    assert |LastTag(o)| == |Ascii(LastTag(o))| == |Ascii(LastTag(o'))| == |LastTag(o')|;
    TagsDiffer(o, o');
  }

  ghost function LastPayload(sha: Bytes -> Hash, o: LogObject): Bytes
    requires ObjectEncodable(o)
  {
    match o
    case LogEvent(e) => sha(EventMessage(e)) + e.signature
    case LogOther(_, _) => CanonicalBytes(Payload(o))
  }

  lemma TagsDiffer(o: LogObject, o': LogObject)
    requires Ascii(LastTag(o)) == Ascii(LastTag(o'))
    ensures SameKind(o, o')
  {
    assert Ascii("tsl.commitment.v1")[4] == 0x63 && Ascii("tsl.revocation.v1")[4] == 0x72;
    assert |LastTag(o)| == |LastTag(o')|;
  }

  /** Receipts, attestations and revocations are hashed under their own tags. */
  lemma OtherLayout(sha: Bytes -> Hash, o: LogObject)
    requires ObjectEncodable(o) && o.LogOther?
    ensures o.kind == ReceiptKind ==>
      LastMessage(sha, o) == Ascii("tsl.receipt_commitment.v1") + [0] + CanonicalBytes(Payload(o))
    ensures o.kind == AttestationKind ==>
      LastMessage(sha, o) == Ascii("tsl.attestation.v1") + [0] + CanonicalBytes(Payload(o))
    ensures o.kind == RevocationKind ==>
      LastMessage(sha, o) == Ascii("tsl.revocation.v1") + [0] + CanonicalBytes(Payload(o))
  {
    hide Ascii, CanonicalBytes, C.Encode;
  }

  // ---------- Checkpoints ----------

  const CHECKPOINT_TAG := "tsl.batch_checkpoint.v1"

  const BODY_NAMES: seq<string> := [
    "type", "epoch_start_ms", "epoch_duration_ms", "shard",
    "event_root", "receipt_root", "attestation_root", "revocation_root",
    "event_count", "receipt_count", "previous_checkpoint", "settlement_backend", "relay_id",
    "checkpoint_identity_hash"]

  ghost function BodyValues(b: K.Body<Hash>): (r: seq<Option<C.Value>>)
    ensures |r| == |BODY_NAMES|
  {
    [Some(C.Str(Word(CHECKPOINT_TAG))), Some(Int(b.epochStart)), Some(Int(b.epochDuration)), Some(C.Str(b.shard)),
     Some(Hex(b.eventRoot)), Some(Hex(b.receiptRoot)), Some(Hex(b.attestationRoot)), Some(Hex(b.revocationRoot)),
     Some(Int(b.eventCount)), Some(Int(b.receiptCount)), Some(Hex(b.previous)),
     if b.settlementBackend.None? then None else Some(C.Str(b.settlementBackend.value)), Some(C.Str(b.relayId)),
     None]
  }

  /** Numbers beyond the safe integers are refused before anything is hashed. */
  ghost predicate BodyEncodable(b: K.Body<Hash>) {
    && C.SafeInteger(b.epochStart) && C.SafeInteger(b.epochDuration)
    && C.SafeInteger(b.eventCount) && C.SafeInteger(b.receiptCount)
  }

  lemma BodyAccepted(b: K.Body<Hash>)
    requires BodyEncodable(b)
    ensures AllAccepted(BodyValues(b))
  {
    hide HexText, Word;
  }

  ghost function BodyMessage(b: K.Body<Hash>): Bytes
    requires BodyEncodable(b)
  {
    BodyAccepted(b);
    ObjectMessage(CHECKPOINT_TAG, BODY_NAMES, BodyValues(b))
  }

  lemma BodyMessageInjective(a: K.Body<Hash>, b: K.Body<Hash>)
    requires BodyEncodable(a) && BodyEncodable(b) && BodyMessage(a) == BodyMessage(b)
    ensures a == b
  {
    hide ObjectMessage, BodyValues, AllAccepted, Distinct;
    BodyAccepted(a);
    BodyAccepted(b);
    BodyNamesDistinct();
    ObjectMessageInjective(CHECKPOINT_TAG, BODY_NAMES, BodyValues(a), BodyValues(b));
    BodyValuesInjective(a, b);
  }

  lemma BodyNamesDistinct()
    ensures Distinct(BODY_NAMES)
  {
    assert forall i, j | 0 <= i < j < |BODY_NAMES| :: |BODY_NAMES[i]| != |BODY_NAMES[j]|;
  }

  ghost predicate Holds(names: seq<string>, values: seq<Option<C.Value>>, name: string, value: Option<C.Value>)
    requires |names| == |values|
  {
    var record := Record(names, values);
    (value.Some? <==> Word(name) in record) && (value.Some? ==> record[Word(name)] == value.value)
  }

  /** What the hashed object of a checkpoint holds under each name. */
  lemma BodyFields(b: K.Body<Hash>)
    ensures forall name: string, value: C.Value | (name, value) in {
        ("type", C.Str(Word("tsl.batch_checkpoint.v1"))), ("epoch_start_ms", Int(b.epochStart)),
        ("epoch_duration_ms", Int(b.epochDuration)), ("shard", C.Str(b.shard)), ("event_root", Hex(b.eventRoot)),
        ("receipt_root", Hex(b.receiptRoot)), ("attestation_root", Hex(b.attestationRoot)),
        ("revocation_root", Hex(b.revocationRoot)), ("event_count", Int(b.eventCount)),
        ("receipt_count", Int(b.receiptCount)), ("previous_checkpoint", Hex(b.previous)),
        ("relay_id", C.Str(b.relayId))} ::
      Holds(BODY_NAMES, BodyValues(b), name, Some(value))
    ensures Holds(BODY_NAMES, BodyValues(b), "settlement_backend",
                  if b.settlementBackend.None? then None else Some(C.Str(b.settlementBackend.value)))
    ensures Holds(BODY_NAMES, BodyValues(b), "checkpoint_identity_hash", None)
  {
    hide Record, Word, HexText, Distinct;
    BodyNamesDistinct();
    forall i: nat | i < 14 ensures Holds(BODY_NAMES, BodyValues(b), BODY_NAMES[i], BodyValues(b)[i]) {
      RecordAt(BODY_NAMES, BodyValues(b), i);
    }
    assert Holds(BODY_NAMES, BodyValues(b), BODY_NAMES[0], BodyValues(b)[0]);
    assert Holds(BODY_NAMES, BodyValues(b), BODY_NAMES[1], BodyValues(b)[1]);
    assert Holds(BODY_NAMES, BodyValues(b), BODY_NAMES[2], BodyValues(b)[2]);
    assert Holds(BODY_NAMES, BodyValues(b), BODY_NAMES[3], BodyValues(b)[3]);
    assert Holds(BODY_NAMES, BodyValues(b), BODY_NAMES[4], BodyValues(b)[4]);
    assert Holds(BODY_NAMES, BodyValues(b), BODY_NAMES[5], BodyValues(b)[5]);
    assert Holds(BODY_NAMES, BodyValues(b), BODY_NAMES[6], BodyValues(b)[6]);
    assert Holds(BODY_NAMES, BodyValues(b), BODY_NAMES[7], BodyValues(b)[7]);
    assert Holds(BODY_NAMES, BodyValues(b), BODY_NAMES[8], BodyValues(b)[8]);
    assert Holds(BODY_NAMES, BodyValues(b), BODY_NAMES[9], BodyValues(b)[9]);
    assert Holds(BODY_NAMES, BodyValues(b), BODY_NAMES[10], BodyValues(b)[10]);
    assert Holds(BODY_NAMES, BodyValues(b), BODY_NAMES[11], BodyValues(b)[11]);
    assert Holds(BODY_NAMES, BodyValues(b), BODY_NAMES[12], BodyValues(b)[12]);
    assert Holds(BODY_NAMES, BodyValues(b), BODY_NAMES[13], BodyValues(b)[13]);
  }

  lemma BodyValuesInjective(a: K.Body<Hash>, b: K.Body<Hash>)
    requires BodyValues(a) == BodyValues(b)
    ensures a == b
  {
    hide HexText, Word;
    var v, w := BodyValues(a), BodyValues(b);
    assert v[1] == w[1] && v[2] == w[2] && v[3] == w[3] && v[4] == w[4] && v[5] == w[5] && v[6] == w[6]
        && v[7] == w[7] && v[8] == w[8] && v[9] == w[9] && v[10] == w[10] && v[11] == w[11] && v[12] == w[12];
    HexInjective(a.eventRoot, b.eventRoot);
    HexInjective(a.receiptRoot, b.receiptRoot);
    HexInjective(a.attestationRoot, b.attestationRoot);
    HexInjective(a.revocationRoot, b.revocationRoot);
    HexInjective(a.previous, b.previous);
  }

  /** The legacy hash leaves out the settlement backend and keeps the identity hash. */
  ghost function LegacyValues(c: K.Checkpoint<Hash>): (r: seq<Option<C.Value>>)
    ensures |r| == |BODY_NAMES|
  {
    var identity := if c.identityHash.None? then None else Some(Hex(c.identityHash.value));
    BodyValues(c.body.(settlementBackend := None))[13 := identity]
  }

  ghost function CheckpointValues(form: Form, c: K.Checkpoint<Hash>): (r: seq<Option<C.Value>>)
    ensures |r| == |BODY_NAMES|
  {
    if form == Current then BodyValues(c.body) else LegacyValues(c)
  }

  lemma CheckpointAccepted(form: Form, c: K.Checkpoint<Hash>)
    requires BodyEncodable(c.body)
    ensures AllAccepted(CheckpointValues(form, c))
  {
    hide HexText, BodyValues;
    BodyAccepted(c.body);
    BodyAccepted(c.body.(settlementBackend := None));
  }

  /** What is hashed for a checkpoint, in the current or in the legacy form. */
  ghost function CheckpointMessage(form: Form, c: K.Checkpoint<Hash>): Bytes
    requires BodyEncodable(c.body)
  {
    CheckpointAccepted(form, c);
    ObjectMessage(CHECKPOINT_TAG, BODY_NAMES, CheckpointValues(form, c))
  }

  /** Across both forms, the hashed payload determines every field but the settlement backend. */
  lemma CheckpointMessageBinds(form: Form, c: K.Checkpoint<Hash>, form': Form, c': K.Checkpoint<Hash>)
    requires BodyEncodable(c.body) && BodyEncodable(c'.body) &&
        CheckpointMessage(form, c) == CheckpointMessage(form', c')
    ensures c.body.(settlementBackend := None) == c'.body.(settlementBackend := None)
    ensures form == form' == Current ==> c.body == c'.body
  {
    hide ObjectMessage, BodyValues, AllAccepted, Distinct;
    CheckpointAccepted(form, c);
    CheckpointAccepted(form', c');
    BodyNamesDistinct();
    ObjectMessageInjective(CHECKPOINT_TAG, BODY_NAMES, CheckpointValues(form, c), CheckpointValues(form', c'));
    ValuesWithoutBackend(form, c);
    ValuesWithoutBackend(form', c');
    BodyValuesInjective(c.body.(settlementBackend := None), c'.body.(settlementBackend := None));
    if form == form' == Current { BodyValuesInjective(c.body, c'.body); }
  }

  lemma ValuesWithoutBackend(form: Form, c: K.Checkpoint<Hash>)
    ensures CheckpointValues(form, c)[11 := None][13 := None] == BodyValues(c.body.(settlementBackend := None))
  {
    hide HexText, Word;
  }

  /** Checkpoints and the sparse tree's objects are hashed as canonical text under their tags. */
  lemma ObjectLayout(tag: string, names: seq<string>, values: seq<Option<C.Value>>)
    requires |names| == |values| && AllAccepted(values)
    ensures C.Encode(C.Obj(Record(names, values))).Ok?
    ensures ObjectMessage(tag, names, values) == Ascii(tag) + [0] + CanonicalBytes(C.Obj(Record(names, values)))
    ensures CHECKPOINT_TAG == "tsl.batch_checkpoint.v1" && SPARSE_TAG == "tsl.zk.non_membership_proof.v1"
  {
    hide Ascii, CanonicalBytes, C.Encode, Record, AllAccepted, C.Accepted;
    RecordAccepted(names, values);
    C.EncodesAccepted(C.Obj(Record(names, values)));
  }

  ghost function BodyMessages(bodies: set<K.Body<Hash>>): set<Bytes>
    requires forall b | b in bodies :: BodyEncodable(b)
  {
    set b | b in bodies :: BodyMessage(b)
  }

  /** From SHA-256 to the checkpoint chain. */
  lemma CheckpointCollisionFree(sha: Bytes -> Hash, hash: K.Body<Hash> -> Hash, bodies: set<K.Body<Hash>>)
    requires forall b | b in bodies :: BodyEncodable(b) && hash(b) == sha(BodyMessage(b))
    requires CollisionFree(sha, BodyMessages(bodies))
    ensures H.CollisionFree(hash, ZERO_HASH, bodies)
  {
    hide BodyMessage, BodyEncodable;
    forall a, b | a in bodies && b in bodies && hash(a) == hash(b) ensures a == b {
      assert BodyMessage(a) in BodyMessages(bodies) && BodyMessage(b) in BodyMessages(bodies);
      BodyMessageInjective(a, b);
    }
    forall a | a in bodies ensures hash(a) != ZERO_HASH {
      assert BodyMessage(a) in BodyMessages(bodies);
    }
  }

  // ---------- The sparse tree ----------

  const SPARSE_TAG := "tsl.zk.non_membership_proof.v1"

  const SPARSE_NAMES: seq<string> := ["label", "value"]
  const PAIR_NAMES: seq<string> := ["left", "right"]
  const INDEX_NAMES: seq<string> := ["tree_id", "index"]
  const STEP_NAMES: seq<string> := ["side", "hash"]
  const PROOF_NAMES: seq<string> := ["root", "value_commitment", "leaf_index", "tree_depth", "sibling_path"]

  ghost function StepValue(s: S.Step<Hash>): C.Value {
    C.Obj(Record(STEP_NAMES, [Some(C.Str(s.side)), Some(Hex(s.sibling))]))
  }

  ghost function PathValues(path: seq<S.Step<Hash>>): (r: seq<C.Value>)
    ensures |r| == |path|
  {
    seq(|path|, i requires 0 <= i < |path| => StepValue(path[i]))
  }

  ghost function ProofFields(root: Hash, value: Hash, index: nat, depth: nat,
      path: seq<S.Step<Hash>>): (r: seq<Option<C.Value>>)
    ensures |r| == 5
  {
    [Some(Hex(root)), Some(Hex(value)), Some(Int(index)), Some(Int(depth)), Some(C.Arr(PathValues(path)))]
  }

  ghost function Label(q: S.Query<Hash>): string {
    match q
    case ZeroLeafQuery => "zero-leaf"
    case LeafQuery(_) => "leaf"
    case NodeQuery(_, _) => "node"
    case IndexQuery(_, _) => "leaf-index"
    case InclusionQuery(_, _, _, _, _) => "sparse-merkle-inclusion-proof"
    case NonMembershipQuery(_, _, _, _, _) => "sparse-merkle-non-membership-proof"
  }

  ghost function Labelled(q: S.Query<Hash>): C.Value {
    match q
    case ZeroLeafQuery => Int(0)
    case LeafQuery(v) => Hex(v)
    case NodeQuery(l, r) => C.Obj(Record(PAIR_NAMES, [Some(Hex(l)), Some(Hex(r))]))
    case IndexQuery(id, i) => C.Obj(Record(INDEX_NAMES, [Some(C.Str(id)), Some(Int(i))]))
    case InclusionQuery(root, v, i, depth, path) => C.Obj(Record(PROOF_NAMES, ProofFields(root, v, i, depth, path)))
    case NonMembershipQuery(root, v, i, depth, path) => C.Obj(Record(PROOF_NAMES, ProofFields(root, v, i, depth, path)))
  }

  ghost predicate SparseEncodable(q: S.Query<Hash>) {
    match q
    case IndexQuery(_, i) => C.SafeInteger(i)
    case InclusionQuery(_, _, i, depth, _) => C.SafeInteger(i) && C.SafeInteger(depth)
    case NonMembershipQuery(_, _, i, depth, _) => C.SafeInteger(i) && C.SafeInteger(depth)
    case _ => true
  }

  ghost function SparseFields(q: S.Query<Hash>): (r: seq<Option<C.Value>>)
    ensures |r| == 2
  {
    [Some(C.Str(Word(Label(q)))), Some(Labelled(q))]
  }

  lemma PathAccepted(path: seq<S.Step<Hash>>)
    ensures C.Accepted(C.Arr(PathValues(path)))
  {
    hide HexText, Word, Record;
    forall i | 0 <= i < |path| ensures C.Accepted(PathValues(path)[i]) {
      RecordAccepted(STEP_NAMES, [Some(C.Str(path[i].side)), Some(Hex(path[i].sibling))]);
    }
  }

  lemma ProofAccepted(root: Hash, value: Hash, index: nat, depth: nat, path: seq<S.Step<Hash>>)
    requires C.SafeInteger(index) && C.SafeInteger(depth)
    ensures C.Accepted(C.Obj(Record(PROOF_NAMES, ProofFields(root, value, index, depth, path))))
  {
    hide HexText, Word, Record, PathValues;
    PathAccepted(path);
    RecordAccepted(PROOF_NAMES, ProofFields(root, value, index, depth, path));
  }

  lemma LabelledAccepted(q: S.Query<Hash>)
    requires SparseEncodable(q)
    ensures C.Accepted(Labelled(q))
  {
    hide HexText, Word, Record, ProofFields;
    match q
    case NodeQuery(l, r) => RecordAccepted(PAIR_NAMES, [Some(Hex(l)), Some(Hex(r))]);
    case IndexQuery(id, i) => RecordAccepted(INDEX_NAMES, [Some(C.Str(id)), Some(Int(i))]);
    case InclusionQuery(root, v, i, depth, path) => ProofAccepted(root, v, i, depth, path);
    case NonMembershipQuery(root, v, i, depth, path) => ProofAccepted(root, v, i, depth, path);
    case _ =>
  }

  lemma SparseAccepted(q: S.Query<Hash>)
    requires SparseEncodable(q)
    ensures AllAccepted(SparseFields(q))
  {
    hide Labelled, Word;
    LabelledAccepted(q);
  }

  ghost function SparseMessage(q: S.Query<Hash>): Bytes
    requires SparseEncodable(q)
  {
    SparseAccepted(q);
    ObjectMessage(SPARSE_TAG, SPARSE_NAMES, SparseFields(q))
  }

  lemma SmallNamesDistinct()
    ensures Distinct(SPARSE_NAMES) && Distinct(PAIR_NAMES) && Distinct(INDEX_NAMES) && Distinct(STEP_NAMES)
  {
    assert Word("label")[0] != Word("value")[0] && Word("side")[0] != Word("hash")[0];
  }

  lemma ProofNamesDistinct()
    ensures Distinct(PROOF_NAMES)
  {
    assert Word("leaf_index")[0] != Word("tree_depth")[0];
    assert forall i, j | 0 <= i < j < 5 :: |PROOF_NAMES[i]| != |PROOF_NAMES[j]| || (i == 2 && j == 3);
  }

  lemma StepInjective(s: S.Step<Hash>, t: S.Step<Hash>)
    requires StepValue(s) == StepValue(t)
    ensures s == t
  {
    hide HexText, Record, Distinct;
    SmallNamesDistinct();
    var v := [Some(C.Str(s.side)), Some(Hex(s.sibling))];
    var w := [Some(C.Str(t.side)), Some(Hex(t.sibling))];
    RecordInjective(STEP_NAMES, v, w);
    assert v[0] == w[0] && v[1] == w[1];
    HexInjective(s.sibling, t.sibling);
  }

  lemma PathInjective(p: seq<S.Step<Hash>>, q: seq<S.Step<Hash>>)
    requires PathValues(p) == PathValues(q)
    ensures p == q
  {
    hide StepValue;
    assert |p| == |PathValues(p)| == |PathValues(q)| == |q|;
    forall i | 0 <= i < |p| ensures p[i] == q[i] {
      assert PathValues(p)[i] == PathValues(q)[i];
      StepInjective(p[i], q[i]);
    }
  }

  lemma ProofFieldsInjective(root: Hash, v: Hash, i: nat, d: nat, p: seq<S.Step<Hash>>,
                             root': Hash, v': Hash, i': nat, d': nat, p': seq<S.Step<Hash>>)
    requires Record(PROOF_NAMES, ProofFields(root, v, i, d, p)) ==
        Record(PROOF_NAMES, ProofFields(root', v', i', d', p'))
    ensures root == root' && v == v' && i == i' && d == d' && p == p'
  {
    hide HexText, Record, Distinct, PathValues;
    ProofNamesDistinct();
    var f, g := ProofFields(root, v, i, d, p), ProofFields(root', v', i', d', p');
    RecordInjective(PROOF_NAMES, f, g);
    assert f[0] == g[0] && f[1] == g[1] && f[2] == g[2] && f[3] == g[3] && f[4] == g[4];
    HexInjective(root, root');
    HexInjective(v, v');
    PathInjective(p, p');
  }

  lemma LabelsDiffer(q: S.Query<Hash>, r: S.Query<Hash>)
    requires Word(Label(q)) == Word(Label(r))
    ensures Label(q) == Label(r)
  {
    assert |Word(Label(q))| == |Label(q)| && |Word(Label(r))| == |Label(r)|;
    assert Word("leaf")[0] != Word("node")[0];
  }

  lemma LabelledInjective(q: S.Query<Hash>, r: S.Query<Hash>)
    requires Label(q) == Label(r) && Labelled(q) == Labelled(r)
    ensures q == r
  {
    hide HexText, Record, Distinct, ProofFields, Word;
    SmallNamesDistinct();
    SameConstructor(q, r);
    match q
    case ZeroLeafQuery =>
    case LeafQuery(v) => HexInjective(v, r.value);
    case NodeQuery(a, b) =>
      var f, g := [Some(Hex(a)), Some(Hex(b))], [Some(Hex(r.left)), Some(Hex(r.right))];
      RecordInjective(PAIR_NAMES, f, g);
      assert f[0] == g[0] && f[1] == g[1];
      HexInjective(a, r.left);
      HexInjective(b, r.right);
    case IndexQuery(id, i) =>
      var f, g := [Some(C.Str(id)), Some(Int(i))], [Some(C.Str(r.treeId)), Some(Int(r.index))];
      RecordInjective(INDEX_NAMES, f, g);
      assert f[0] == g[0] && f[1] == g[1];
    case InclusionQuery(root, v, i, d, p) =>
      ProofFieldsInjective(root, v, i, d, p, r.root, r.value, r.index, r.depth, r.path);
    case NonMembershipQuery(root, v, i, d, p) =>
      ProofFieldsInjective(root, v, i, d, p, r.root, r.value, r.index, r.depth, r.path);
  }

  lemma SameConstructor(q: S.Query<Hash>, r: S.Query<Hash>)
    requires Label(q) == Label(r)
    ensures q.ZeroLeafQuery? == r.ZeroLeafQuery? && q.LeafQuery? == r.LeafQuery? && q.NodeQuery? == r.NodeQuery?
    ensures q.IndexQuery? == r.IndexQuery? && q.InclusionQuery? == r.InclusionQuery?
  {
    assert "leaf"[0] != "node"[0];
    assert |Label(q)| == |Label(r)| && Label(q)[0] == Label(r)[0];
  }

  lemma TwoFields(first: string, second: string, a: C.Value, b: C.Value)
    requires Distinct([first, second])
    ensures Holds([first, second], [Some(a), Some(b)], first, Some(a))
    ensures Holds([first, second], [Some(a), Some(b)], second, Some(b))
  {
    hide Record, Word;
    RecordAt([first, second], [Some(a), Some(b)], 0);
    RecordAt([first, second], [Some(a), Some(b)], 1);
  }

  /** What the hashed objects of the sparse tree hold under each name. */
  lemma SparseFieldsAre(q: S.Query<Hash>)
    ensures Holds(["label", "value"], SparseFields(q), "label", Some(C.Str(Word(Label(q)))))
    ensures Holds(["label", "value"], SparseFields(q), "value", Some(Labelled(q)))
    ensures q == S.ZeroLeafQuery ==> Label(q) == "zero-leaf" && Labelled(q) == Int(0)
    ensures q.LeafQuery? ==> Label(q) == "leaf" && Labelled(q) == Hex(q.value)
    ensures q.NodeQuery? ==>
      var values := [Some(Hex(q.left)), Some(Hex(q.right))];
      && Label(q) == "node" && Labelled(q) == C.Obj(Record(["left", "right"], values))
      && Holds(["left", "right"], values, "left", Some(Hex(q.left)))
      && Holds(["left", "right"], values, "right", Some(Hex(q.right)))
    ensures q.IndexQuery? ==>
      var values := [Some(C.Str(q.treeId)), Some(Int(q.index))];
      && Label(q) == "leaf-index" && Labelled(q) == C.Obj(Record(["tree_id", "index"], values))
      && Holds(["tree_id", "index"], values, "tree_id", Some(C.Str(q.treeId)))
      && Holds(["tree_id", "index"], values, "index", Some(Int(q.index)))
  {
    hide Record, Word, HexText, Distinct, Holds;
    SmallNamesDistinct();
    TwoFields("label", "value", C.Str(Word(Label(q))), Labelled(q));
    if q.NodeQuery? { TwoFields("left", "right", Hex(q.left), Hex(q.right)); }
    if q.IndexQuery? { TwoFields("tree_id", "index", C.Str(q.treeId), Int(q.index)); }
  }

  /** What the sealed object of a sparse proof holds under each name, and each step of its path. */
  lemma SealFieldsAre(root: Hash, v: Hash, i: nat, d: nat, path: seq<S.Step<Hash>>)
    ensures var values := ProofFields(root, v, i, d, path);
      && Holds(PROOF_NAMES, values, "root", Some(Hex(root)))
      && Holds(PROOF_NAMES, values, "value_commitment", Some(Hex(v)))
      && Holds(PROOF_NAMES, values, "leaf_index", Some(Int(i)))
      && Holds(PROOF_NAMES, values, "tree_depth", Some(Int(d)))
      && Holds(PROOF_NAMES, values, "sibling_path", Some(C.Arr(PathValues(path))))
    ensures forall j | 0 <= j < |path| ::
      PathValues(path)[j] == C.Obj(Record(["side", "hash"], [Some(C.Str(path[j].side)), Some(Hex(path[j].sibling))]))
    ensures Label(S.InclusionQuery(root, v, i, d, path)) == "sparse-merkle-inclusion-proof"
    ensures Label(S.NonMembershipQuery(root, v, i, d, path)) == "sparse-merkle-non-membership-proof"
    ensures Labelled(S.InclusionQuery(root, v, i, d, path))
         == Labelled(S.NonMembershipQuery(root, v, i, d, path))
         == C.Obj(Record(PROOF_NAMES, ProofFields(root, v, i, d, path)))
  {
    hide Record, Word, HexText, Distinct;
    ProofNamesDistinct();
    var values := ProofFields(root, v, i, d, path);
    RecordAt(PROOF_NAMES, values, 0);
    RecordAt(PROOF_NAMES, values, 1);
    RecordAt(PROOF_NAMES, values, 2);
    RecordAt(PROOF_NAMES, values, 3);
    RecordAt(PROOF_NAMES, values, 4);
  }

  lemma SparseMessageInjective(q: S.Query<Hash>, r: S.Query<Hash>)
    requires SparseEncodable(q) && SparseEncodable(r) && SparseMessage(q) == SparseMessage(r)
    ensures q == r
  {
    hide ObjectMessage, AllAccepted, Distinct, Label, Labelled, SparseEncodable, Word;
    SparseAccepted(q);
    SparseAccepted(r);
    SmallNamesDistinct();
    var f, g := SparseFields(q), SparseFields(r);
    ObjectMessageInjective(SPARSE_TAG, SPARSE_NAMES, f, g);
    assert f[0] == g[0] && f[1] == g[1];
    LabelsDiffer(q, r);
    LabelledInjective(q, r);
  }

  ghost function SparseMessages(queries: set<S.Query<Hash>>): set<Bytes>
    requires forall q | q in queries :: SparseEncodable(q)
  {
    set q | q in queries :: SparseMessage(q)
  }

  /** From SHA-256 to the sparse tree. */
  lemma SparseCollisionFree(sha: Bytes -> Hash, hash: S.Query<Hash> -> Hash, queries: set<S.Query<Hash>>)
    requires forall q | q in queries :: SparseEncodable(q) && hash(q) == sha(SparseMessage(q))
    requires CollisionFree(sha, SparseMessages(queries))
    ensures H.Separates(hash, queries)
  {
    hide SparseMessage, SparseEncodable;
    forall q, r | q in queries && r in queries && hash(q) == hash(r) ensures q == r {
      assert SparseMessage(q) in SparseMessages(queries) && SparseMessage(r) in SparseMessages(queries);
      SparseMessageInjective(q, r);
    }
  }
}
