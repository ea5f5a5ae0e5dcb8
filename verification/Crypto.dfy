/** Byte layouts of everything that is hashed. SHA-256 itself is a parameter. */
module Crypto {
  import H = Hashing
  import opened Text
  import C = Canonical

  type Byte = b: int | 0 <= b < 256

  type Bytes = seq<Byte>

  /** A decoded `Hex32`. */
  type Hash = h: Bytes | |h| == 32 witness seq(32, _ => 0)

  function Zeros(n: nat): (b: Bytes)
    ensures |b| == n
  {
    seq(n, _ => 0)
  }

  const ZERO_HASH: Hash := Zeros(32)

  /** No two of these byte strings share a hash, and none hashes to zero. */
  ghost predicate CollisionFree(sha: Bytes -> Hash, messages: set<Bytes>) {
    H.CollisionFree(sha, ZERO_HASH, messages)
  }

  lemma CollisionFreeSubset(sha: Bytes -> Hash, messages: set<Bytes>, fewer: set<Bytes>)
    requires CollisionFree(sha, messages) && fewer <= messages
    ensures CollisionFree(sha, fewer)
  {
  }

  // ---------- concatBytes ----------

  ghost function Flatten(parts: seq<Bytes>): Bytes {
    if parts == [] then [] else Flatten(parts[..|parts| - 1]) + parts[|parts| - 1]
  }

  method ConcatBytes(parts: seq<Bytes>) returns (output: array<Byte>)
    ensures output[..] == Flatten(parts)
  {
    var total := 0;
    for i := 0 to |parts|
      invariant total == |Flatten(parts[..i])|
    {
      assert parts[..i + 1][..i] == parts[..i];
      total := total + |parts[i]|;
    }
    assert parts[..|parts|] == parts;
    output := new Byte[total](_ => 0);
    var offset := 0;
    for i := 0 to |parts|
      invariant offset == |Flatten(parts[..i])|
      invariant offset <= total
      invariant output[..offset] == Flatten(parts[..i])
    {
      assert parts[..i + 1][..i] == parts[..i];
      FlattenGrows(parts, i + 1);
      var part := parts[i];
      forall j | 0 <= j < |part| {
        output[offset + j] := part[j];
      }
      assert output[..offset + |part|] == Flatten(parts[..i]) + part;
      offset := offset + |part|;
    }
  }

  lemma {:induction false} FlattenGrows(parts: seq<Bytes>, i: nat)
    requires i <= |parts|
    ensures |Flatten(parts[..i])| <= |Flatten(parts)|
  {
    if i == |parts| {
      assert parts[..i] == parts;
    } else {
      var most := parts[..|parts| - 1];
      FlattenGrows(most, i);
      assert most[..i] == parts[..i];
    }
  }

  // ---------- uint64be ----------

  /** The low k bytes of n, most significant first. */
  function BigEndian(n: nat, k: nat): (b: Bytes)
    ensures |b| == k
    decreases k
  {
    if k == 0 then [] else BigEndian(n / 256, k - 1) + [n % 256]
  }

  ghost function FromBigEndian(b: Bytes): nat {
    if b == [] then 0 else
      var last: int := b[|b| - 1];
      FromBigEndian(b[..|b| - 1]) * 256 + last
  }

  function Power256(k: nat): nat {
    if k == 0 then 1 else 256 * Power256(k - 1)
  }

  lemma {:induction false} BigEndianRoundTrip(n: nat, k: nat)
    requires n < Power256(k)
    ensures FromBigEndian(BigEndian(n, k)) == n
    decreases k
  {
    if k > 0 {
      BigEndianRoundTrip(n / 256, k - 1);
      assert BigEndian(n, k)[..k - 1] == BigEndian(n / 256, k - 1);
    }
  }

  const UINT64_LIMIT: nat := 0x1_0000_0000_0000_0000

  function Uint64be(n: nat): (b: Bytes)
    ensures |b| == 8
  {
    BigEndian(n, 8)
  }

  lemma Uint64beInjective(m: nat, n: nat)
    requires m < UINT64_LIMIT && n < UINT64_LIMIT && Uint64be(m) == Uint64be(n)
    ensures m == n
  {
    assert Power256(8) == UINT64_LIMIT by {
      assert Power256(2) == 0x1_0000;
      assert Power256(4) == 0x1_0000_0000;
      assert Power256(6) == 0x1_0000_0000_0000;
    }
    BigEndianRoundTrip(m, 8);
    BigEndianRoundTrip(n, 8);
  }

  // ---------- hashDomain ----------

  /** ASCII text as bytes; tags have no zero byte. */
  function Ascii(s: string): (b: Bytes)
    ensures |b| == |s|
    ensures 0 !in b
  {
    seq(|s|, i requires 0 <= i < |s| => if 0 < s[i] as int < 128 then s[i] as int else 0x3f)
  }

  function DomainMessage(tag: Bytes, payload: Bytes): Bytes {
    tag + [0] + payload
  }

  /** Tag, zero byte and payload, copied one after the other. */
  method HashDomain(sha: Bytes -> Hash, tag: Bytes, payload: Bytes) returns (h: Hash)
    ensures h == sha(DomainMessage(tag, payload))
  {
    var parts := [tag, [0], payload];
    var message := ConcatBytes(parts);
    FlattenThree(tag, [0], payload);
    h := sha(message[..]);
  }

  lemma FlattenThree(a: Bytes, b: Bytes, c: Bytes)
    ensures Flatten([a, b, c]) == a + b + c
  {
    assert [a, b, c][..2] == [a, b] && [a, b][..1] == [a] && [a][..0] == [];
    assert Flatten([a]) == a && Flatten([a, b]) == a + b;
  }

  /** Tag and payload can be read back: the first zero byte ends the tag. */
  lemma DomainSeparated(tag: Bytes, payload: Bytes, tag': Bytes, payload': Bytes)
    requires 0 !in tag && 0 !in tag'
    requires DomainMessage(tag, payload) == DomainMessage(tag', payload')
    ensures tag == tag' && payload == payload'
  {
    var m, m' := DomainMessage(tag, payload), DomainMessage(tag', payload');
    assert m[|tag|] == 0 && forall i | 0 <= i < |tag| :: m[i] == tag[i] != 0;
    assert m'[|tag'|] == 0 && forall i | 0 <= i < |tag'| :: m'[i] == tag'[i] != 0;
    assert m[..|tag|] == tag && m'[..|tag'|] == tag';
    assert m[|tag| + 1..] == payload && m'[|tag'| + 1..] == payload';
  }

  // ---------- UTF-8 ----------

  /** Every high surrogate is followed by a low one and there is no other low one. */
  ghost predicate WellFormed(t: Text) {
    t == [] ||
    if C.IsHigh(t[0]) then |t| >= 2 && C.IsLow(t[1]) && WellFormed(t[2..])
    else !C.IsLow(t[0]) && WellFormed(t[1..])
  }

  /** `TextEncoder` on one code point below 0x10000 that is no surrogate. */
  function EncodeUnit(u: CodeUnit): Bytes {
    if u < 0x80 then [u]
    else if u < 0x800 then [0xc0 + u / 64, 0x80 + u % 64]
    else [0xe0 + u / 64 / 64, 0x80 + u / 64 % 64, 0x80 + u % 64]
  }

  /** `TextEncoder` on a surrogate pair. */
  function EncodePair(high: CodeUnit, low: CodeUnit): Bytes
    requires C.IsHigh(high) && C.IsLow(low)
  {
    var h, l := high - 0xd800 + 0x40, low - 0xdc00;
    [0xf0 + h / 256, 0x80 + h / 4 % 64, 0x80 + h % 4 * 16 + l / 64, 0x80 + l % 64]
  }

  function Utf8(t: Text): Bytes {
    if t == [] then []
    else if C.IsHigh(t[0]) && |t| >= 2 && C.IsLow(t[1]) then EncodePair(t[0], t[1]) + Utf8(t[2..])
    else if C.IsHigh(t[0]) || C.IsLow(t[0]) then [0xef, 0xbf, 0xbd] + Utf8(t[1..])
    else EncodeUnit(t[0]) + Utf8(t[1..])
  }

  /** The units the next code point of well-formed text takes, and their bytes. */
  ghost function HeadUnits(t: Text): Text
    requires t != [] && WellFormed(t)
  {
    if C.IsHigh(t[0]) then t[..2] else t[..1]
  }

  ghost function HeadBytes(head: Text): Bytes
    requires |head| == 1 || (|head| == 2 && C.IsHigh(head[0]) && C.IsLow(head[1]))
  {
    if |head| == 2 then EncodePair(head[0], head[1]) else EncodeUnit(head[0])
  }

  /** The code point that one or two UTF-16 units stand for. */
  ghost function CodePoint(head: Text): int
    requires |head| == 1 || (|head| == 2 && C.IsHigh(head[0]) && C.IsLow(head[1]))
  {
    if |head| == 1 then head[0] as int else 0x10000 + (head[0] as int - 0xd800) * 0x400 + (head[1] as int - 0xdc00)
  }

  /** The code point that a sequence of bytes stands for, as section 3 of RFC 3629 has it. */
  ghost function Utf8Value(b: Bytes): int {
    if |b| == 1 then b[0] as int
    else if |b| == 2 then (b[0] as int - 0xc0) * 64 + (b[1] as int - 0x80)
    else if |b| == 3 then (b[0] as int - 0xe0) * 4096 + (b[1] as int - 0x80) * 64 + (b[2] as int - 0x80)
    else if |b| == 4 then
      (b[0] as int - 0xf0) * 262144 + (b[1] as int - 0x80) * 4096 + (b[2] as int - 0x80) * 64 + (b[3] as int - 0x80)
    else -1
  }

  /** A code point is written in the bytes that stand for it, in as few as can. */
  lemma HeadIsUtf8(head: Text)
    requires |head| == 1 || (|head| == 2 && C.IsHigh(head[0]) && C.IsLow(head[1]))
    ensures Utf8Value(HeadBytes(head)) == CodePoint(head)
    ensures var c := CodePoint(head);
      |HeadBytes(head)| == if c < 0x80 then 1 else if c < 0x800 then 2 else if c < 0x10000 then 3 else 4
    ensures forall i | 0 < i < |HeadBytes(head)| :: 0x80 <= HeadBytes(head)[i] < 0xc0
  {
    if |head| == 2 {
      PairValue(head[0] - 0xd800 + 0x40, head[1] - 0xdc00);
    } else {
      var u: int := head[0];
      assert u == u / 64 * 64 + u % 64 && u / 64 == u / 64 / 64 * 64 + u / 64 % 64;
    }
  }

  lemma PairValue(h: int, l: int)
    requires 0x40 <= h < 0x440 && 0 <= l < 0x400
    ensures h / 256 * 262144 + h / 4 % 64 * 4096 + (h % 4 * 16 + l / 64) * 64 + l % 64 == h * 0x400 + l
  {
    HighParts(h, l);
    assert l == l / 64 * 64 + l % 64;
  }

  /** A lone surrogate is written as the replacement character. */
  lemma LoneSurrogate(t: Text)
    requires t != [] && (C.IsLow(t[0]) || (C.IsHigh(t[0]) && !(|t| >= 2 && C.IsLow(t[1]))))
    ensures Utf8(t) == [0xef, 0xbf, 0xbd] + Utf8(t[1..]) && Utf8Value([0xef, 0xbf, 0xbd]) == 0xfffd
  {
  }

  /** How many bytes a code point takes shows in its first byte. */
  ghost function HeadLength(first: Byte): nat {
    if first < 0x80 then 1 else if first < 0xe0 then 2 else if first < 0xf0 then 3 else 4
  }

  lemma UnitInjective(u: CodeUnit, v: CodeUnit)
    requires EncodeUnit(u) == EncodeUnit(v)
    ensures u == v
  {
    assert |EncodeUnit(u)| == 1 <==> u < 0x80;
    assert |EncodeUnit(u)| == 2 <==> 0x80 <= u < 0x800;
    assert |EncodeUnit(v)| == 1 <==> v < 0x80;
    assert |EncodeUnit(v)| == 2 <==> 0x80 <= v < 0x800;
    var a, b := EncodeUnit(u), EncodeUnit(v);
    assert a[0] == b[0];
    if 2 <= |a| { assert a[1] == b[1]; }
    if 3 <= |a| { assert a[2] == b[2]; }
  }

  lemma PairInjective(h: CodeUnit, l: CodeUnit, h': CodeUnit, l': CodeUnit)
    requires C.IsHigh(h) && C.IsLow(l) && C.IsHigh(h') && C.IsLow(l')
    requires EncodePair(h, l) == EncodePair(h', l')
    ensures h == h' && l == l'
  {
    var a, b := EncodePair(h, l), EncodePair(h', l');
    assert a[0] == b[0] && a[1] == b[1] && a[2] == b[2] && a[3] == b[3];
    HighParts(h - 0xd800 + 0x40, l - 0xdc00);
    HighParts(h' - 0xd800 + 0x40, l' - 0xdc00);
  }

  lemma HighParts(h: int, l: int)
    requires 0x40 <= h < 0x440 && 0 <= l < 0x400
    ensures h == h / 256 * 256 + h / 4 % 64 * 4 + h % 4
    ensures (h % 4 * 16 + l / 64) / 16 == h % 4 && (h % 4 * 16 + l / 64) % 16 == l / 64
  {
    assert h / 4 / 64 == h / 256;
  }

  lemma HeadStarts(head: Text)
    requires |head| == 1 || (|head| == 2 && C.IsHigh(head[0]) && C.IsLow(head[1]))
    ensures HeadBytes(head) != [] && |HeadBytes(head)| == HeadLength(HeadBytes(head)[0])
    ensures |HeadBytes(head)| == 4 <==> |head| == 2
  {
  }

  lemma Utf8Head(t: Text)
    requires t != [] && WellFormed(t)
    ensures var n := |HeadUnits(t)|;
      Utf8(t) == HeadBytes(HeadUnits(t)) + Utf8(t[n..]) && t == HeadUnits(t) + t[n..] && WellFormed(t[n..])
  {
  }

  /** `TextEncoder` loses nothing of well-formed text. */
  lemma {:induction false} Utf8Injective(s: Text, t: Text)
    requires WellFormed(s) && WellFormed(t) && Utf8(s) == Utf8(t)
    ensures s == t
    decreases |s|
  {
    hide HeadUnits, HeadBytes, HeadLength, Utf8;
    Utf8Empty(s);
    Utf8Empty(t);
    if s != [] {
      var p, q := HeadUnits(s), HeadUnits(t);
      Utf8Head(s);
      Utf8Head(t);
      HeadShape(s);
      HeadShape(t);
      HeadStarts(p);
      HeadStarts(q);
      var a, b := HeadBytes(p), HeadBytes(q);
      assert Utf8(s)[0] == a[0] && Utf8(t)[0] == b[0];
      assert Utf8(s)[..|a|] == a && Utf8(t)[..|b|] == b;
      assert Utf8(s)[|a|..] == Utf8(s[|p|..]) && Utf8(t)[|b|..] == Utf8(t[|q|..]);
      HeadInjective(p, q);
      Utf8Injective(s[|p|..], t[|q|..]);
    }
  }

  lemma Utf8Empty(t: Text)
    requires WellFormed(t)
    ensures t == [] <==> Utf8(t) == []
  {
  }

  lemma HeadShape(t: Text)
    requires t != [] && WellFormed(t)
    ensures var head := HeadUnits(t);
      |head| == 1 || (|head| == 2 && C.IsHigh(head[0]) && C.IsLow(head[1]))
  {
  }

  lemma HeadInjective(p: Text, q: Text)
    requires |p| == 1 || (|p| == 2 && C.IsHigh(p[0]) && C.IsLow(p[1]))
    requires |q| == |p| && (|q| == 1 || (|q| == 2 && C.IsHigh(q[0]) && C.IsLow(q[1])))
    requires HeadBytes(p) == HeadBytes(q)
    ensures p == q
  {
    if |p| == 2 { PairInjective(p[0], p[1], q[0], q[1]); } else { UnitInjective(p[0], q[0]); }
  }

  // ---------- canonicalBytes ----------

  lemma {:induction false} WellFormedConcat(a: Text, b: Text)
    requires WellFormed(a) && WellFormed(b)
    ensures WellFormed(a + b)
  {
    if a == [] {
      assert a + b == b;
    } else {
      var n := if C.IsHigh(a[0]) then 2 else 1;
      WellFormedConcat(a[n..], b);
      assert (a + b)[n..] == a[n..] + b;
    }
  }

  /** Text without surrogates. */
  lemma {:induction false} PlainIsWellFormed(t: Text)
    requires forall i | 0 <= i < |t| :: !C.IsHigh(t[i]) && !C.IsLow(t[i])
    ensures WellFormed(t)
  {
    if t != [] { PlainIsWellFormed(t[1..]); }
  }

  lemma {:induction false} EscapeIsWellFormed(s: Text)
    ensures WellFormed(C.Escape(s))
  {
    hide C.UnicodeEscape;
    if s == [] {
    } else if |s| >= 2 && C.IsHigh(s[0]) && C.IsLow(s[1]) {
      EscapeIsWellFormed(s[2..]);
      assert WellFormed(s[..2]);
      WellFormedConcat(s[..2], C.Escape(s[2..]));
    } else {
      EscapeIsWellFormed(s[1..]);
      UnitIsWellFormed(s[0]);
      WellFormedConcat(C.EscapeUnit(s[0]), C.Escape(s[1..]));
    }
  }

  lemma UnitIsWellFormed(u: CodeUnit)
    ensures WellFormed(C.EscapeUnit(u))
  {
    PlainIsWellFormed(C.EscapeUnit(u));
  }

  lemma QuoteIsWellFormed(s: Text)
    ensures WellFormed(C.Quote(s))
  {
    EscapeIsWellFormed(s);
    PlainIsWellFormed([C.QUOTE]);
    WellFormedConcat([C.QUOTE], C.Escape(s));
    WellFormedConcat([C.QUOTE] + C.Escape(s), [C.QUOTE]);
  }

  /** A head, a separator and a tail. */
  lemma JoinIsWellFormed(head: Text, separator: CodeUnit, tail: Text)
    requires WellFormed(head) && WellFormed(tail) && !C.IsHigh(separator) && !C.IsLow(separator)
    ensures WellFormed(head + [separator] + tail)
  {
    PlainIsWellFormed([separator]);
    WellFormedConcat(head, [separator]);
    WellFormedConcat(head + [separator], tail);
  }

  /** Canonical text never holds a lone surrogate. */
  lemma {:induction false} TextIsWellFormed(v: C.Value)
    requires C.Encode(v).Ok?
    ensures WellFormed(C.Encode(v).value)
    decreases v, 0
  {
    hide C.Escape, WellFormed;
    match v
    case Null => PlainIsWellFormed(C.NULL_TEXT);
    case Bool(b) => PlainIsWellFormed(C.Encode(v).value);
    case Num(n) => PlainIsWellFormed(C.Decimal(n.n));
    case Str(s) => QuoteIsWellFormed(s);
    case Arr(items) =>
      ItemsWellFormed(items);
      Bracketed(C.OPEN_BRACKET, C.EncodeItems(items).value, C.CLOSE_BRACKET);
    case Obj(fields) =>
      var keys := SortedSet(fields.Keys);
      FieldsWellFormed(v, keys);
      Bracketed(C.OPEN_BRACE, C.EncodeFields(v, keys).value, C.CLOSE_BRACE);
  }

  lemma Bracketed(open: CodeUnit, body: Text, close: CodeUnit)
    requires WellFormed(body)
    requires !C.IsHigh(open) && !C.IsLow(open) && !C.IsHigh(close) && !C.IsLow(close)
    ensures WellFormed([open] + body + [close])
  {
    PlainIsWellFormed([open]);
    PlainIsWellFormed([close]);
    WellFormedConcat([open], body);
    WellFormedConcat([open] + body, [close]);
  }

  lemma {:induction false} ItemsWellFormed(items: seq<C.Value>)
    requires C.EncodeItems(items).Ok?
    ensures WellFormed(C.EncodeItems(items).value)
    decreases items, 0
  {
    hide C.Encode;
    if items != [] {
      TextIsWellFormed(items[0]);
      ItemsWellFormed(items[1..]);
      JoinIsWellFormed(C.Encode(items[0]).value, C.COMMA, C.EncodeItems(items[1..]).value);
    }
  }

  lemma {:induction false} FieldsWellFormed(v: C.Value, keys: seq<Text>)
    requires v.Obj? && Elements(keys) <= v.fields.Keys && C.EncodeFields(v, keys).Ok?
    ensures WellFormed(C.EncodeFields(v, keys).value)
    decreases v, 0, |keys|
  {
    hide C.Encode, C.Quote;
    if keys != [] {
      var key := keys[0];
      assert key in Elements(keys);
      assert Elements(keys[1..]) <= Elements(keys);
      QuoteIsWellFormed(key);
      TextIsWellFormed(v.fields[key]);
      FieldsWellFormed(v, keys[1..]);
      JoinIsWellFormed(C.Quote(key), C.COLON, C.Encode(v.fields[key]).value);
      JoinIsWellFormed(C.Quote(key) + [C.COLON] + C.Encode(v.fields[key]).value, C.COMMA,
          C.EncodeFields(v, keys[1..]).value);
    }
  }

  /** The bytes that are hashed and signed for an object. */
  ghost function CanonicalBytes(v: C.Value): Bytes
    requires C.Encode(v).Ok?
  {
    Utf8(C.Encode(v).value)
  }

  /** Equal canonical bytes mean equal values. */
  lemma CanonicalBytesInjective(v: C.Value, w: C.Value)
    requires C.Encode(v).Ok? && C.Encode(w).Ok? && CanonicalBytes(v) == CanonicalBytes(w)
    ensures v == w
  {
    TextIsWellFormed(v);
    TextIsWellFormed(w);
    Utf8Injective(C.Encode(v).value, C.Encode(w).value);
    C.Injective(v, w);
  }
}
