/** Canonical JSON text of signed objects, and the decoder that reads it back. */
module Canonical {
  import opened Wrappers
  import opened Text

  // ---------- Values ----------

  /** A JavaScript number, as far as the encoder distinguishes them. */
  datatype Number = Integer(n: int) | NegativeZero | NotAnInteger

  datatype Value =
    | Null
    | Bool(b: bool)
    | Num(number: Number)
    | Str(s: Text)
    | Arr(items: seq<Value>)
    | Obj(fields: map<Text, Value>)
    | Undefined
    | Unsupported

  datatype Error = UnsafeInteger | NegativeZeroRejected | UndefinedField(key: Text) | UnsupportedValue

  const MAX_SAFE_INTEGER := 9007199254740991

  predicate SafeInteger(n: int) {
    -MAX_SAFE_INTEGER <= n <= MAX_SAFE_INTEGER
  }

  /** What the encoder takes: null, booleans, safe integers, strings, and arrays and objects of those. */
  ghost predicate Accepted(v: Value) {
    match v
    case Null => true
    case Bool(_) => true
    case Num(n) => n.Integer? && SafeInteger(n.n)
    case Str(_) => true
    case Arr(items) => forall x | x in items :: Accepted(x)
    case Obj(fields) => forall k | k in fields :: Accepted(fields[k])
    case Undefined => false
    case Unsupported => false
  }

  // ---------- Lexical pieces ----------

  const QUOTE: CodeUnit := 0x22
  const BACKSLASH: CodeUnit := 0x5c
  const COMMA: CodeUnit := 0x2c
  const COLON: CodeUnit := 0x3a
  const MINUS: CodeUnit := 0x2d
  const OPEN_BRACKET: CodeUnit := 0x5b
  const CLOSE_BRACKET: CodeUnit := 0x5d
  const OPEN_BRACE: CodeUnit := 0x7b
  const CLOSE_BRACE: CodeUnit := 0x7d
  const NULL_TEXT: Text := [0x6e, 0x75, 0x6c, 0x6c]
  const TRUE_TEXT: Text := [0x74, 0x72, 0x75, 0x65]
  const FALSE_TEXT: Text := [0x66, 0x61, 0x6c, 0x73, 0x65]

  predicate IsDigit(u: CodeUnit) { 0x30 <= u <= 0x39 }

  predicate IsHigh(u: CodeUnit) { 0xd800 <= u <= 0xdbff }

  predicate IsLow(u: CodeUnit) { 0xdc00 <= u <= 0xdfff }

  /** Lower-case hexadecimal digit. */
  function HexDigit(d: int): (u: CodeUnit)
    requires 0 <= d < 16
  {
    if d < 10 then 0x30 + d else 0x61 + d - 10
  }

  /** The value of a hexadecimal digit of either case, -1 for anything else. */
  function HexValue(u: CodeUnit): (d: int)
    ensures -1 <= d < 16
  {
    if IsDigit(u) then u - 0x30
    else if 0x61 <= u <= 0x66 then u - 0x61 + 10
    else if 0x41 <= u <= 0x46 then u - 0x41 + 10
    else -1
  }

  function UnicodeEscape(u: CodeUnit): Text {
    var high := u / 16;
    [BACKSLASH, 0x75, HexDigit(high / 16 / 16), HexDigit(high / 16 % 16), HexDigit(high % 16), HexDigit(u % 16)]
  }

  /** The short escape letter of a character that has one, 0 otherwise. */
  function ShortEscape(u: CodeUnit): CodeUnit {
    if u == QUOTE then QUOTE
    else if u == BACKSLASH then BACKSLASH
    else if u == 0x08 then 0x62
    else if u == 0x0c then 0x66
    else if u == 0x0a then 0x6e
    else if u == 0x0d then 0x72
    else if u == 0x09 then 0x74
    else 0
  }

  /** One unit of a quoted string that is not half of a surrogate pair. */
  function EscapeUnit(u: CodeUnit): Text {
    if ShortEscape(u) != 0 then [BACKSLASH, ShortEscape(u)]
    else if u < 0x20 || IsHigh(u) || IsLow(u) then UnicodeEscape(u)
    else [u]
  }

  /** `JSON.stringify` of a string, between the quotes: surrogate pairs stand as they are, lone
      surrogates are escaped. */
  function Escape(s: Text): Text {
    if s == [] then []
    else if |s| >= 2 && IsHigh(s[0]) && IsLow(s[1]) then s[..2] + Escape(s[2..])
    else EscapeUnit(s[0]) + Escape(s[1..])
  }

  function Quote(s: Text): Text {
    [QUOTE] + Escape(s) + [QUOTE]
  }

  /** Decimal digits of a natural number, most significant first. */
  function Digits(n: nat): (t: Text)
    ensures t != [] && forall i | 0 <= i < |t| :: IsDigit(t[i])
  {
    if n < 10 then [0x30 + n] else Digits(n / 10) + [0x30 + n % 10]
  }

  function Decimal(n: int): Text {
    if n < 0 then [MINUS] + Digits(-n) else Digits(n)
  }

  // ---------- Encoder ----------

  ghost function Encode(v: Value): (r: Result<Text, Error>)
    decreases v, 0
  {
    match v
    case Null => Ok(NULL_TEXT)
    case Str(s) => Ok(Quote(s))
    case Bool(b) => Ok(if b then TRUE_TEXT else FALSE_TEXT)
    case Num(n) =>
      if n.NotAnInteger? || (n.Integer? && !SafeInteger(n.n)) then Err(UnsafeInteger)
      else if n.NegativeZero? then Err(NegativeZeroRejected)
      else Ok(Decimal(n.n))
    case Arr(items) =>
      var body :- EncodeItems(items);
      Ok([OPEN_BRACKET] + body + [CLOSE_BRACKET])
    case Obj(fields) =>
      var body :- EncodeFields(v, SortedSet(fields.Keys));
      Ok([OPEN_BRACE] + body + [CLOSE_BRACE])
    case Undefined => Err(UnsupportedValue)
    case Unsupported => Err(UnsupportedValue)
  }

  /** The items of an array, joined by commas. */
  ghost function EncodeItems(items: seq<Value>): Result<Text, Error>
    decreases items, 0
  {
    if items == [] then Ok([]) else
      var head :- Encode(items[0]);
      var tail :- EncodeItems(items[1..]);
      Ok(if |items| == 1 then head else head + [COMMA] + tail)
  }

  /** The named fields of an object, joined by commas. */
  ghost function EncodeFields(v: Value, keys: seq<Text>): Result<Text, Error>
    requires v.Obj? && Elements(keys) <= v.fields.Keys
    decreases v, 0, |keys|
  {
    if keys == [] then Ok([]) else
      var key := keys[0];
      assert key in Elements(keys);
      var child := v.fields[key];
      if child.Undefined? then Err(UndefinedField(key)) else
      var head :- Encode(child);
      assert Elements(keys[1..]) <= Elements(keys);
      var tail :- EncodeFields(v, keys[1..]);
      var field := Quote(key) + [COLON] + head;
      Ok(if |keys| == 1 then field else field + [COMMA] + tail)
  }

  /** Encoding succeeds on exactly the accepted values. */
  lemma {:induction false} EncodesAccepted(v: Value)
    ensures Encode(v).Ok? <==> Accepted(v)
    decreases v, 0
  {
    match v
    case Arr(items) => ItemsAccepted(items);
    case Obj(fields) =>
      FieldsAccepted(v, SortedSet(fields.Keys));
      assert forall k :: k in fields <==> k in Elements(SortedSet(fields.Keys));
    case _ =>
  }

  lemma {:induction false} ItemsAccepted(items: seq<Value>)
    ensures EncodeItems(items).Ok? <==> forall x | x in items :: Accepted(x)
    decreases items, 0
  {
    if items != [] {
      EncodesAccepted(items[0]);
      ItemsAccepted(items[1..]);
      assert items == [items[0]] + items[1..];
    }
  }

  lemma {:induction false} FieldsAccepted(v: Value, keys: seq<Text>)
    requires v.Obj? && Elements(keys) <= v.fields.Keys
    ensures forall k | k in keys :: k in v.fields
    ensures EncodeFields(v, keys).Ok? <==> forall k | k in keys :: Accepted(v.fields[k])
    decreases v, 0, |keys|
  {
    assert forall k | k in keys :: k in Elements(keys);
    if keys != [] {
      assert keys == [keys[0]] + keys[1..];
      assert Elements(keys[1..]) <= Elements(keys);
      EncodesAccepted(v.fields[keys[0]]);
      FieldsAccepted(v, keys[1..]);
    }
  }

  // ---------- Decoder ----------

  // The decoder reads JSON. With `strict` it takes canonical forms only: field names in strictly ascending order,
  // the shortest escape for every character, lower-case hexadecimal digits.

  datatype Parse<+T> = Fail | Got(value: T, rest: Text) {
    predicate IsFailure() { Fail? }
    function PropagateFailure<U>(): Parse<U>
      requires Fail?
    {
      Fail
    }
    function Extract(): (T, Text)
      requires Got?
    {
      (value, rest)
    }
  }

  /** Drops an expected unit. */
  function Expect(u: CodeUnit, t: Text): (r: Parse<()>)
    ensures r.Got? ==> |r.rest| < |t|
  {
    if t != [] && t[0] == u then Got((), t[1..]) else Fail
  }

  /** The unit a short escape letter stands for, 0 for a letter that is none. */
  function ShortUnescape(u: CodeUnit): CodeUnit {
    if u == QUOTE || u == BACKSLASH || u == 0x2f then u
    else if u == 0x62 then 0x08
    else if u == 0x66 then 0x0c
    else if u == 0x6e then 0x0a
    else if u == 0x72 then 0x0d
    else if u == 0x74 then 0x09
    else 0
  }

  /** The unit written by a six-unit escape, -1 unless its last four are hexadecimal digits. */
  function UnicodeValue(t: Text): (u: int)
    requires |t| == 6
    ensures -1 <= u < 0x10000
  {
    if HexValue(t[2]) < 0 || HexValue(t[3]) < 0 || HexValue(t[4]) < 0 || HexValue(t[5]) < 0 then -1
    else HexValue(t[2]) * 0x1000 + HexValue(t[3]) * 0x100 + HexValue(t[4]) * 0x10 + HexValue(t[5])
  }

  predicate LowerHex(u: CodeUnit) {
    IsDigit(u) || 0x61 <= u <= 0x66
  }

  /** A six-unit escape with lower-case digits, of a unit that has no shorter way to be written. */
  predicate NeedsUnicode(t: Text)
    requires |t| == 6
  {
    && LowerHex(t[2]) && LowerHex(t[3]) && LowerHex(t[4]) && LowerHex(t[5])
    && (UnicodeValue(t) < 0x20 || 0xd800 <= UnicodeValue(t) <= 0xdfff)
    && UnicodeValue(t) !in {0x08, 0x09, 0x0a, 0x0c, 0x0d}
  }

  /** An escaped high surrogate with a low one after it would be a pair, which stands unescaped. */
  predicate HalfOfPair(u: CodeUnit, tail: Text) {
    IsHigh(u) && tail != [] && IsLow(tail[0])
  }

  /** The rest of a quoted string, up to and including the closing quote. */
  function ParseChars(t: Text, strict: bool): (r: Parse<Text>)
    ensures r.Got? ==> |r.rest| < |t|
  {
    if t == [] || t[0] < 0x20 then Fail
    else if t[0] == QUOTE then Got([], t[1..])
    else if |t| >= 2 && IsHigh(t[0]) && IsLow(t[1]) then
      var (tail, rest) :- ParseChars(t[2..], strict);
      Got(t[..2] + tail, rest)
    else if t[0] != BACKSLASH then
      if strict && (IsHigh(t[0]) || IsLow(t[0])) then Fail else
        var (tail, rest) :- ParseChars(t[1..], strict);
        Got([t[0]] + tail, rest)
    else if |t| >= 2 && ShortUnescape(t[1]) != 0 then
      if strict && t[1] == 0x2f then Fail else
        var (tail, rest) :- ParseChars(t[2..], strict);
        Got([ShortUnescape(t[1])] + tail, rest)
    else if |t| >= 6 && t[1] == 0x75 && UnicodeValue(t[..6]) >= 0 then
      var (tail, rest) :- ParseChars(t[6..], strict);
      var u := UnicodeValue(t[..6]);
      if strict && (!NeedsUnicode(t[..6]) || HalfOfPair(u, tail)) then Fail else Got([u] + tail, rest)
    else Fail
  }

  function DigitPrefix(t: Text): (n: nat)
    ensures n <= |t|
    ensures forall i | 0 <= i < n :: IsDigit(t[i])
  {
    if t == [] || !IsDigit(t[0]) then 0 else 1 + DigitPrefix(t[1..])
  }

  function FromDigits(t: Text): nat
    requires forall i | 0 <= i < |t| :: IsDigit(t[i])
  {
    if t == [] then 0 else
      var last: int := t[|t| - 1];
      assert IsDigit(last);
      FromDigits(t[..|t| - 1]) * 10 + (last - 0x30)
  }

  /** Digits without a leading zero. */
  function ParseNat(t: Text): (r: Parse<nat>)
    ensures r.Got? ==> |r.rest| < |t|
  {
    var n := DigitPrefix(t);
    if n == 0 || (n > 1 && t[0] == 0x30) then Fail else Got(FromDigits(t[..n]), t[n..])
  }

  function ParseWord(word: Text, v: Value, t: Text): (r: Parse<Value>)
    requires word != []
    ensures r.Got? ==> |r.rest| < |t|
  {
    if word <= t then Got(v, t[|word|..]) else Fail
  }

  function ParseValue(t: Text, strict: bool): (r: Parse<Value>)
    ensures r.Got? ==> |r.rest| < |t|
    decreases |t|, 1
  {
    if t == [] then Fail
    else if t[0] == NULL_TEXT[0] then ParseWord(NULL_TEXT, Null, t)
    else if t[0] == TRUE_TEXT[0] then ParseWord(TRUE_TEXT, Bool(true), t)
    else if t[0] == FALSE_TEXT[0] then ParseWord(FALSE_TEXT, Bool(false), t)
    else if t[0] == QUOTE then
      var (s, rest) :- ParseChars(t[1..], strict);
      Got(Str(s), rest)
    else if t[0] == MINUS then
      var (n, rest) :- ParseNat(t[1..]);
      Got(Num(if n == 0 then NegativeZero else Integer(-(n as int))), rest)
    else if t[0] == OPEN_BRACKET then
      if |t| >= 2 && t[1] == CLOSE_BRACKET then Got(Arr([]), t[2..]) else
        var (items, rest) :- ParseItems(t[1..], strict);
        Got(Arr(items), rest)
    else if t[0] == OPEN_BRACE then
      if |t| >= 2 && t[1] == CLOSE_BRACE then Got(Obj(map[]), t[2..]) else
        var (fields, rest) :- ParseFields(t[1..], strict);
        if strict && !Rising(fields.names) then Fail else Got(Obj(fields.values), rest)
    else
      var (n, rest) :- ParseNat(t);
      Got(Num(Integer(n)), rest)
  }

  /** One or more items and the closing bracket. */
  function ParseItems(t: Text, strict: bool): (r: Parse<seq<Value>>)
    ensures r.Got? ==> |r.rest| < |t|
    decreases |t|, 2
  {
    var (head, rest) :- ParseValue(t, strict);
    if rest != [] && rest[0] == CLOSE_BRACKET then Got([head], rest[1..]) else
      var (_, rest) :- Expect(COMMA, rest);
      var (tail, rest) :- ParseItems(rest, strict);
      Got([head] + tail, rest)
  }

  /** Fields as they are read: the names in the order they stand, and what the object then holds. */
  datatype Fields = Fields(names: seq<Text>, values: map<Text, Value>)

  /** Each name comes before the next. */
  predicate Rising(names: seq<Text>) {
    forall i | 0 <= i < |names| - 1 :: Less(names[i], names[i + 1])
  }

  /** One or more fields and the closing brace; a later field of the same name wins. */
  function ParseFields(t: Text, strict: bool): (r: Parse<Fields>)
    ensures r.Got? ==> |r.rest| < |t|
    decreases |t|, 2
  {
    var (_, rest) :- Expect(QUOTE, t);
    var (key, rest) :- ParseChars(rest, strict);
    var (_, rest) :- Expect(COLON, rest);
    var (child, rest) :- ParseValue(rest, strict);
    if rest != [] && rest[0] == CLOSE_BRACE then Got(Fields([key], map[key := child]), rest[1..]) else
      var (_, rest) :- Expect(COMMA, rest);
      var (others, rest) :- ParseFields(rest, strict);
      Got(Fields([key] + others.names, map[key := child] + others.values), rest)
  }

  /** Reads a whole text. */
  function Decode(t: Text, strict: bool): (r: Parse<Value>) {
    var p := ParseValue(t, strict);
    if p.Got? && p.rest != [] then Fail else p
  }

  // ---------- Round trip ----------

  /** `u` read as one unit in front of what `after` parses to. */
  ghost function Prepended(u: CodeUnit, after: Text, strict: bool): Parse<Text> {
    var p := ParseChars(after, strict);
    if p.Fail? then Fail else Got([u] + p.value, p.rest)
  }

  lemma ReadVerbatim(u: CodeUnit, after: Text, strict: bool)
    requires u >= 0x20 && u != QUOTE && u != BACKSLASH && !IsHigh(u) && !IsLow(u)
    ensures ParseChars([u] + after, strict) == Prepended(u, after, strict)
  {
    assert ([u] + after)[1..] == after;
  }

  lemma ReadShort(u: CodeUnit, after: Text, strict: bool)
    requires ShortEscape(u) != 0
    ensures ParseChars([BACKSLASH, ShortEscape(u)] + after, strict) == Prepended(u, after, strict)
  {
    var t := [BACKSLASH, ShortEscape(u)] + after;
    assert t[2..] == after;
    assert t[1] == ShortEscape(u) && ShortUnescape(t[1]) == u;
  }

  lemma HexDigitRoundTrip(d: int)
    requires 0 <= d < 16
    ensures HexValue(HexDigit(d)) == d
  {
  }

  lemma HexRoundTrip(u: CodeUnit)
    ensures UnicodeValue(UnicodeEscape(u)) == u
  {
    var high := u / 16;
    HexDigitRoundTrip(high / 16 / 16);
    HexDigitRoundTrip(high / 16 % 16);
    HexDigitRoundTrip(high % 16);
    HexDigitRoundTrip(u % 16);
  }

  lemma ReadUnicode(u: CodeUnit, after: Text, strict: bool)
    requires ShortEscape(u) == 0 && (u < 0x20 || IsHigh(u) || IsLow(u))
    requires ParseChars(after, strict).Got? ==> !HalfOfPair(u, ParseChars(after, strict).value)
    ensures ParseChars(UnicodeEscape(u) + after, strict) == Prepended(u, after, strict)
  {
    var t := UnicodeEscape(u) + after;
    HexRoundTrip(u);
    EscapeIsLower(u);
    assert t[..6] == UnicodeEscape(u);
    assert t[6..] == after;
    assert t[0] == BACKSLASH && t[1] == 0x75;
  }

  lemma EscapeIsLower(u: CodeUnit)
    ensures forall i | 2 <= i < 6 :: LowerHex(UnicodeEscape(u)[i])
  {
  }

  lemma ReadClose(after: Text, strict: bool)
    ensures ParseChars([QUOTE] + after, strict) == Got([], after)
  {
    assert ([QUOTE] + after)[1..] == after;
  }

  lemma PairRead(u: CodeUnit, v: CodeUnit, after: Text, strict: bool)
    requires IsHigh(u) && IsLow(v) && ParseChars(after, strict).Got?
    ensures ParseChars([u, v] + after, strict)
         == Got([u, v] + ParseChars(after, strict).value, ParseChars(after, strict).rest)
  {
    var t := [u, v] + after;
    assert t[..2] == [u, v] && t[2..] == after;
  }

  lemma {:induction false} CharsRoundTrip(s: Text, rest: Text, strict: bool)
    ensures ParseChars(Escape(s) + [QUOTE] + rest, strict) == Got(s, rest)
  {
    hide EscapeUnit, ParseChars;
    if s == [] {
      ReadClose(rest, strict);
      assert Escape(s) + [QUOTE] + rest == [QUOTE] + rest;
    } else if |s| >= 2 && IsHigh(s[0]) && IsLow(s[1]) {
      CharsRoundTrip(s[2..], rest, strict);
      var after := Escape(s[2..]) + [QUOTE] + rest;
      PairRead(s[0], s[1], after, strict);
      assert Escape(s) + [QUOTE] + rest == [s[0], s[1]] + after;
      assert s == [s[0], s[1]] + s[2..];
    } else {
      CharsRoundTrip(s[1..], rest, strict);
      UnitRoundTrip(s[0], Escape(s[1..]) + [QUOTE] + rest, strict);
      assert Escape(s) + [QUOTE] + rest == EscapeUnit(s[0]) + (Escape(s[1..]) + [QUOTE] + rest);
      assert s == [s[0]] + s[1..];
    }
  }

  lemma UnitRoundTrip(u: CodeUnit, after: Text, strict: bool)
    requires ParseChars(after, strict).Got? ==> !HalfOfPair(u, ParseChars(after, strict).value)
    ensures ParseChars(EscapeUnit(u) + after, strict) == Prepended(u, after, strict)
  {
    hide ParseChars, UnicodeEscape;
    if ShortEscape(u) != 0 {
      ReadShort(u, after, strict);
    } else if u < 0x20 || IsHigh(u) || IsLow(u) {
      ReadUnicode(u, after, strict);
    } else {
      ReadVerbatim(u, after, strict);
    }
  }

  lemma {:induction false} DigitsRoundTrip(n: nat)
    ensures FromDigits(Digits(n)) == n
    ensures n > 0 ==> Digits(n)[0] != 0x30
    ensures n == 0 ==> |Digits(n)| == 1
  {
    if n >= 10 {
      DigitsRoundTrip(n / 10);
      assert Digits(n)[0] == Digits(n / 10)[0];
      assert Digits(n)[..|Digits(n)| - 1] == Digits(n / 10);
    }
  }

  lemma {:induction false} DigitPrefixOf(t: Text, rest: Text)
    requires forall i | 0 <= i < |t| :: IsDigit(t[i])
    requires rest == [] || !IsDigit(rest[0])
    ensures DigitPrefix(t + rest) == |t|
  {
    if t == [] {
      assert t + rest == rest;
    } else {
      assert (t + rest)[1..] == t[1..] + rest;
      DigitPrefixOf(t[1..], rest);
    }
  }

  lemma NatRoundTrip(n: nat, rest: Text)
    requires rest == [] || !IsDigit(rest[0])
    ensures ParseNat(Digits(n) + rest) == Got(n, rest)
  {
    DigitPrefixOf(Digits(n), rest);
    DigitsRoundTrip(n);
    assert (Digits(n) + rest)[..|Digits(n)|] == Digits(n);
    assert (Digits(n) + rest)[|Digits(n)|..] == rest;
    assert (Digits(n) + rest)[0] == Digits(n)[0];
  }

  lemma WordRoundTrip(word: Text, v: Value, rest: Text)
    requires word != []
    ensures ParseWord(word, v, word + rest) == Got(v, rest)
    ensures (word + rest)[0] == word[0]
  {
    assert (word + rest)[|word|..] == rest;
  }

  lemma ReadNat(t: Text, after: Text, strict: bool)
    requires t != [] && IsDigit(t[0]) && ParseNat(t + after).Got?
    ensures ParseValue(t + after, strict) == Got(Num(Integer(ParseNat(t + after).value)), ParseNat(t + after).rest)
  {
    assert (t + after)[0] == t[0];
  }

  lemma ReadNegative(t: Text, after: Text, strict: bool)
    requires ParseNat(t + after).Got? && ParseNat(t + after).value != 0
    ensures ParseValue([MINUS] + t + after, strict)
         == Got(Num(Integer(-(ParseNat(t + after).value as int))), ParseNat(t + after).rest)
  {
    assert ([MINUS] + t + after)[1..] == t + after;
  }

  lemma NumberRoundTrip(n: int, rest: Text, strict: bool)
    requires rest == [] || !IsDigit(rest[0])
    ensures ParseValue(Decimal(n) + rest, strict) == Got(Num(Integer(n)), rest)
  {
    hide Digits, ParseNat, ParseValue;
    if n < 0 {
      NatRoundTrip(-n, rest);
      ReadNegative(Digits(-n), rest, strict);
    } else {
      NatRoundTrip(n, rest);
      ReadNat(Digits(n), rest, strict);
    }
  }

  lemma StringRoundTrip(s: Text, rest: Text, strict: bool)
    ensures ParseValue(Quote(s) + rest, strict) == Got(Str(s), rest)
  {
    hide Escape, ParseChars, ParseFields, ParseItems;
    CharsRoundTrip(s, rest, strict);
    assert (Quote(s) + rest)[1..] == Escape(s) + [QUOTE] + rest;
    assert (Quote(s) + rest)[0] == QUOTE;
  }

  lemma {:induction false} ValueRoundTrip(v: Value, rest: Text, strict: bool)
    requires Encode(v).Ok?
    requires rest == [] || !IsDigit(rest[0])
    ensures ParseValue(Encode(v).value + rest, strict) == Got(v, rest)
    decreases v, 1
  {
    match v
    case Null => WordRoundTrip(NULL_TEXT, v, rest);
    case Bool(b) => WordRoundTrip(if b then TRUE_TEXT else FALSE_TEXT, v, rest);
    case Num(n) => NumberRoundTrip(n.n, rest, strict);
    case Str(s) => StringRoundTrip(s, rest, strict);
    case Arr(items) => ArrayRoundTrip(items, rest, strict);
    case Obj(fields) => ObjectRoundTrip(v, rest, strict);
  }

  lemma ReadArray(body: Text, items: seq<Value>, rest: Text, strict: bool)
    requires body != [] && body[0] != CLOSE_BRACKET && ParseItems(body, strict) == Got(items, rest)
    ensures ParseValue([OPEN_BRACKET] + body, strict) == Got(Arr(items), rest)
  {
    assert ([OPEN_BRACKET] + body)[1..] == body;
  }

  lemma ReadNoItems(rest: Text, strict: bool)
    ensures ParseValue([OPEN_BRACKET, CLOSE_BRACKET] + rest, strict) == Got(Arr([]), rest)
  {
    assert ([OPEN_BRACKET, CLOSE_BRACKET] + rest)[2..] == rest;
  }

  lemma ItemsStart(items: seq<Value>)
    requires EncodeItems(items).Ok?
    ensures if items == [] then EncodeItems(items).value == []
            else EncodeItems(items).value != [] && EncodeItems(items).value[0] != CLOSE_BRACKET
  {
    if items != [] { StartsValue(items[0]); }
  }

  lemma {:induction false} ArrayRoundTrip(items: seq<Value>, rest: Text, strict: bool)
    requires EncodeItems(items).Ok?
    ensures ParseValue([OPEN_BRACKET] + EncodeItems(items).value + [CLOSE_BRACKET] + rest, strict)
         == Got(Arr(items), rest)
    decreases items, 1
  {
    hide ParseValue, ParseItems, EncodeItems;
    var text := EncodeItems(items).value;
    ItemsStart(items);
    if items == [] {
      ReadNoItems(rest, strict);
      assert [OPEN_BRACKET] + text + [CLOSE_BRACKET] + rest == [OPEN_BRACKET, CLOSE_BRACKET] + rest;
    } else {
      ItemsRoundTrip(items, rest, strict);
      ReadArray(text + [CLOSE_BRACKET] + rest, items, rest, strict);
      assert [OPEN_BRACKET] + text + [CLOSE_BRACKET] + rest == [OPEN_BRACKET] + (text + [CLOSE_BRACKET] + rest);
    }
  }

  lemma ReadObject(body: Text, fields: Fields, rest: Text, strict: bool)
    requires body != [] && body[0] == QUOTE && Rising(fields.names)
    requires ParseFields(body, strict) == Got(fields, rest)
    ensures ParseValue([OPEN_BRACE] + body, strict) == Got(Obj(fields.values), rest)
  {
    assert ([OPEN_BRACE] + body)[1..] == body;
  }

  /** The part of an object's fields that a list of keys names. */
  ghost function Named(fields: map<Text, Value>, keys: seq<Text>): map<Text, Value>
    requires Elements(keys) <= fields.Keys
  {
    map k | k in Elements(keys) :: fields[k]
  }

  lemma NamedCons(fields: map<Text, Value>, keys: seq<Text>)
    requires Elements(keys) <= fields.Keys && keys != [] && StrictlySorted(keys)
    ensures Elements(keys[1..]) <= fields.Keys && keys[0] in fields
    ensures Named(fields, keys) == map[keys[0] := fields[keys[0]]] + Named(fields, keys[1..])
  {
    ElementsCons(keys[0], keys[1..]);
    assert keys == [keys[0]] + keys[1..];
  }

  lemma FieldsStart(v: Value, keys: seq<Text>)
    requires v.Obj? && Elements(keys) <= v.fields.Keys && EncodeFields(v, keys).Ok?
    ensures if keys == [] then EncodeFields(v, keys).value == []
            else EncodeFields(v, keys).value != [] && EncodeFields(v, keys).value[0] == QUOTE
  {
  }

  lemma {:induction false} ObjectRoundTrip(v: Value, rest: Text, strict: bool)
    requires v.Obj? && Encode(v).Ok?
    ensures ParseValue(Encode(v).value + rest, strict) == Got(v, rest)
    decreases v, 0
  {
    hide EncodeFields, ParseFields;
    var keys := SortedSet(v.fields.Keys);
    HasElements(keys);
    FieldsStart(v, keys);
    var text := EncodeFields(v, keys).value;
    if keys == [] {
      var t := [OPEN_BRACE, CLOSE_BRACE] + rest;
      assert Encode(v).value + rest == t;
      assert t[2..] == rest;
      assert v.fields == map[];
    } else {
      FieldsRoundTrip(v, keys, rest, strict);
      ReadObject(text + [CLOSE_BRACE] + rest, Fields(keys, Named(v.fields, keys)), rest, strict);
      assert Encode(v).value + rest == [OPEN_BRACE] + (text + [CLOSE_BRACE] + rest);
      assert Named(v.fields, keys) == v.fields;
    }
  }

  /** No encoded value begins with a closing bracket. */
  lemma StartsValue(v: Value)
    requires Encode(v).Ok?
    ensures Encode(v).value != [] && Encode(v).value[0] != CLOSE_BRACKET
  {
  }

  /** One item read back in front of `after`. */
  lemma ReadItem(item: Value, head: Text, after: Text, strict: bool)
    requires ParseValue(head + after, strict) == Got(item, after)
    requires after != [] && (after[0] == COMMA || after[0] == CLOSE_BRACKET)
    ensures ParseItems(head + after, strict)
         == if after[0] == CLOSE_BRACKET then Got([item], after[1..]) else
              var p := ParseItems(after[1..], strict);
              if p.Fail? then Fail else Got([item] + p.value, p.rest)
  {
  }

  /** A head, a comma and a tail, regrouped around what follows the head. */
  lemma Regroup(head: Text, tail: Text, close: CodeUnit, rest: Text)
    ensures head + [COMMA] + tail + [close] + rest == head + ([COMMA] + (tail + [close] + rest))
    ensures ([COMMA] + (tail + [close] + rest))[1..] == tail + [close] + rest
    ensures head + [close] + rest == head + ([close] + rest)
    ensures ([close] + rest)[1..] == rest
  {
  }

  lemma {:induction false} ItemsRoundTrip(items: seq<Value>, rest: Text, strict: bool)
    requires items != [] && EncodeItems(items).Ok?
    ensures ParseItems(EncodeItems(items).value + [CLOSE_BRACKET] + rest, strict) == Got(items, rest)
    decreases items, 0
  {
    hide ParseValue, ParseItems, Encode;
    var head := Encode(items[0]).value;
    var tail := EncodeItems(items[1..]).value;
    Regroup(head, tail, CLOSE_BRACKET, rest);
    var after := if |items| == 1 then [CLOSE_BRACKET] + rest else [COMMA] + (tail + [CLOSE_BRACKET] + rest);
    ValueRoundTrip(items[0], after, strict);
    ReadItem(items[0], head, after, strict);
    if |items| > 1 {
      ItemsRoundTrip(items[1..], rest, strict);
      assert items == [items[0]] + items[1..];
    } else {
      assert items == [items[0]];
    }
  }

  lemma ReadKey(key: Text, after: Text, strict: bool)
    ensures Expect(QUOTE, Quote(key) + after).Got?
    ensures ParseChars(Expect(QUOTE, Quote(key) + after).rest, strict) == Got(key, after)
  {
    hide Escape, ParseChars;
    CharsRoundTrip(key, after, strict);
    assert (Quote(key) + after)[1..] == Escape(key) + [QUOTE] + after;
  }

  /** One field's name and value read back in front of `after`. */
  lemma ReadField(key: Text, child: Value, head: Text, after: Text, strict: bool)
    requires ParseValue(head + after, strict) == Got(child, after)
    requires after != [] && (after[0] == COMMA || after[0] == CLOSE_BRACE)
    ensures ParseFields(Quote(key) + [COLON] + head + after, strict)
         == if after[0] == CLOSE_BRACE then Got(Fields([key], map[key := child]), after[1..]) else
              var p := ParseFields(after[1..], strict);
              if p.Fail? then Fail
              else Got(Fields([key] + p.value.names, map[key := child] + p.value.values), p.rest)
  {
    hide ParseValue, ParseChars, Quote;
    ReadKey(key, [COLON] + (head + after), strict);
    assert ([COLON] + (head + after))[1..] == head + after;
    assert Quote(key) + [COLON] + head + after == Quote(key) + ([COLON] + (head + after));
  }

  lemma {:induction false} FieldsRoundTrip(v: Value, keys: seq<Text>, rest: Text, strict: bool)
    requires v.Obj? && Elements(keys) <= v.fields.Keys && StrictlySorted(keys)
    requires keys != [] && EncodeFields(v, keys).Ok?
    ensures ParseFields(EncodeFields(v, keys).value + [CLOSE_BRACE] + rest, strict)
         == Got(Fields(keys, Named(v.fields, keys)), rest)
    decreases v, 0, |keys|
  {
    hide ParseValue, ParseFields, Quote, Encode;
    var key := keys[0];
    NamedCons(v.fields, keys);
    var head := Encode(v.fields[key]).value;
    var tail := EncodeFields(v, keys[1..]).value;
    Regroup(Quote(key) + [COLON] + head, tail, CLOSE_BRACE, rest);
    var after := if |keys| == 1 then [CLOSE_BRACE] + rest else [COMMA] + (tail + [CLOSE_BRACE] + rest);
    ValueRoundTrip(v.fields[key], after, strict);
    ReadField(key, v.fields[key], head, after, strict);
    if |keys| > 1 {
      FieldsRoundTrip(v, keys[1..], rest, strict);
      assert keys == [key] + keys[1..];
    } else {
      assert keys == [key];
      assert Named(v.fields, keys) == map[key := v.fields[key]];
    }
  }

  /** Reading canonical text gives back the value it was written from, even to a reader that takes canonical
      forms only. */
  lemma RoundTrip(v: Value, strict: bool)
    requires Accepted(v)
    ensures Encode(v).Ok? && Decode(Encode(v).value, strict) == Got(v, [])
  {
    EncodesAccepted(v);
    ValueRoundTrip(v, [], strict);
    assert Encode(v).value + [] == Encode(v).value;
  }

  /** The names read from the text of an object, in the order they stand, are its names in strictly ascending
      order. */
  lemma NamesAscend(v: Value, strict: bool)
    requires v.Obj? && v.fields != map[] && Accepted(v)
    ensures Encode(v).Ok? && Encode(v).value != []
    ensures var read := ParseFields(Encode(v).value[1..], strict);
      && read.Got? && read.rest == [] && read.value.values == v.fields
      && StrictlySorted(read.value.names) && Elements(read.value.names) == v.fields.Keys
  {
    hide ParseFields, EncodeFields;
    EncodesAccepted(v);
    var keys := SortedSet(v.fields.Keys);
    HasElements(keys);
    FieldsRoundTrip(v, keys, [], strict);
    var text := EncodeFields(v, keys).value;
    assert Encode(v).value[1..] == text + [CLOSE_BRACE] + [];
    assert Named(v.fields, keys) == v.fields;
  }

  /** Equal canonical text means equal values; fields form a map, so key order does not matter. */
  lemma Injective(v: Value, w: Value)
    requires Encode(v).Ok? && Encode(v) == Encode(w)
    ensures v == w
  {
    EncodesAccepted(v);
    EncodesAccepted(w);
    RoundTrip(v, false);
    RoundTrip(w, false);
  }

  // ---------- What the strict reader takes ----------

  lemma LowerHexIs(u: CodeUnit)
    requires LowerHex(u)
    ensures 0 <= HexValue(u) < 16 && HexDigit(HexValue(u)) == u
  {
  }

  lemma UnicodeIsEscape(t: Text)
    requires |t| == 6 && t[0] == BACKSLASH && t[1] == 0x75 && NeedsUnicode(t)
    ensures 0 <= UnicodeValue(t) && UnicodeEscape(UnicodeValue(t)) == t
  {
    LowerHexIs(t[2]);
    LowerHexIs(t[3]);
    LowerHexIs(t[4]);
    LowerHexIs(t[5]);
    var a, b, c, d := HexValue(t[2]), HexValue(t[3]), HexValue(t[4]), HexValue(t[5]);
    var u := UnicodeValue(t);
    assert u / 16 == a * 0x100 + b * 0x10 + c && u % 16 == d;
    assert u / 16 / 16 == a * 0x10 + b && u / 16 % 16 == c;
  }

  /** One step of `Escape` that does not start with a pair. */
  lemma EscapeOne(u: CodeUnit, tail: Text)
    requires !HalfOfPair(u, tail)
    ensures Escape([u] + tail) == EscapeUnit(u) + Escape(tail)
  {
    assert ([u] + tail)[1..] == tail;
  }

  lemma EscapePair(u: CodeUnit, v: CodeUnit, tail: Text)
    requires IsHigh(u) && IsLow(v)
    ensures Escape([u, v] + tail) == [u, v] + Escape(tail)
  {
    assert ([u, v] + tail)[2..] == tail && ([u, v] + tail)[..2] == [u, v];
  }

  /** The first n units of a string's text are read as `u` and are how `u` is written in front of what follows. */
  ghost predicate Head(t: Text, n: nat, u: Text) {
    && 0 < n <= |t|
    && var tail := ParseChars(t[n..], true);
       && tail.Got? && ParseChars(t, true) == Got(u + tail.value, tail.rest)
       && Escape(u + tail.value) == t[..n] + Escape(tail.value)
  }

  lemma PairHead(t: Text)
    requires ParseChars(t, true).Got? && |t| >= 2 && IsHigh(t[0]) && IsLow(t[1])
    ensures Head(t, 2, t[..2])
  {
    hide Escape;
    EscapePair(t[0], t[1], ParseChars(t[2..], true).value);
    assert t[..2] == [t[0], t[1]];
  }

  lemma RawHead(t: Text)
    requires ParseChars(t, true).Got? && t[0] != QUOTE && t[0] != BACKSLASH
    requires !(|t| >= 2 && IsHigh(t[0]) && IsLow(t[1]))
    ensures Head(t, 1, [t[0]])
  {
    hide Escape, UnicodeEscape;
    EscapeOne(t[0], ParseChars(t[1..], true).value);
    assert t[..1] == [t[0]];
  }

  lemma ShortIsEscape(letter: CodeUnit)
    requires ShortUnescape(letter) != 0 && letter != 0x2f
    ensures EscapeUnit(ShortUnescape(letter)) == [BACKSLASH, letter] && !IsHigh(ShortUnescape(letter))
  {
    hide UnicodeEscape;
  }

  lemma ShortHead(t: Text)
    requires ParseChars(t, true).Got? && t[0] == BACKSLASH && |t| >= 2 && ShortUnescape(t[1]) != 0
    ensures Head(t, 2, [ShortUnescape(t[1])])
  {
    hide Escape, EscapeUnit, ShortUnescape;
    ShortIsEscape(t[1]);
    EscapeOne(ShortUnescape(t[1]), ParseChars(t[2..], true).value);
    assert t[..2] == [t[0], t[1]];
  }

  lemma UnicodeHead(t: Text)
    requires ParseChars(t, true).Got? && t[0] == BACKSLASH && !(|t| >= 2 && ShortUnescape(t[1]) != 0)
    ensures |t| >= 6 && UnicodeValue(t[..6]) >= 0 && Head(t, 6, [UnicodeValue(t[..6])])
  {
    hide Escape, UnicodeEscape, NeedsUnicode, UnicodeValue;
    EscapedIsCanonical(t, ParseChars(t[6..], true).value);
  }

  lemma StringHead(t: Text) returns (n: nat, u: Text)
    requires ParseChars(t, true).Got? && t != [] && t[0] != QUOTE
    ensures Head(t, n, u)
  {
    hide ParseChars, Head, ShortUnescape, UnicodeValue;
    if |t| >= 2 && IsHigh(t[0]) && IsLow(t[1]) {
      PairHead(t);
      n, u := 2, t[..2];
    } else if t[0] != BACKSLASH {
      RawHead(t);
      n, u := 1, [t[0]];
    } else if |t| >= 2 && ShortUnescape(t[1]) != 0 {
      ShortHead(t);
      n, u := 2, [ShortUnescape(t[1])];
    } else {
      UnicodeHead(t);
      n, u := 6, [UnicodeValue(t[..6])];
    }
  }

  lemma NoString()
    ensures ParseChars([], true).Fail?
  {
  }

  /** The strict reader takes a string in its canonical form only. */
  lemma {:induction false} CharsAreCanonical(t: Text)
    requires ParseChars(t, true).Got?
    ensures t == Escape(ParseChars(t, true).value) + [QUOTE] + ParseChars(t, true).rest
  {
    hide ParseChars, Escape;
    NoString();
    if t[0] == QUOTE {
      EscapeNone();
      ReadClose(t[1..], true);
      assert t == [QUOTE] + t[1..];
    } else {
      var n, u := StringHead(t);
      CharsAreCanonical(t[n..]);
      assert t == t[..n] + t[n..];
    }
  }

  lemma EscapeNone()
    ensures Escape([]) == []
  {
  }

  lemma EscapedIsCanonical(t: Text, tail: Text)
    requires |t| >= 6 && t[0] == BACKSLASH && t[1] == 0x75 && NeedsUnicode(t[..6])
    requires UnicodeValue(t[..6]) >= 0 && !HalfOfPair(UnicodeValue(t[..6]), tail)
    ensures Escape([UnicodeValue(t[..6])] + tail) == t[..6] + Escape(tail)
  {
    hide UnicodeEscape;
    UnicodeIsEscape(t[..6]);
    EscapeOne(UnicodeValue(t[..6]), tail);
  }

  lemma {:induction false} DigitsAreCanonical(d: Text)
    requires d != [] && (forall i | 0 <= i < |d| :: IsDigit(d[i])) && (|d| == 1 || d[0] != 0x30)
    ensures Digits(FromDigits(d)) == d
    ensures d[0] != 0x30 ==> FromDigits(d) > 0
  {
    var n := |d| - 1;
    var last: int := d[n];
    if n == 0 {
      assert d[..0] == [];
      assert FromDigits(d) == last - 0x30;
    } else {
      DigitsAreCanonical(d[..n]);
      assert d == d[..n] + [d[n]];
      var front := FromDigits(d[..n]);
      assert FromDigits(d) == front * 10 + (last - 0x30);
      assert FromDigits(d) / 10 == front && FromDigits(d) % 10 == last - 0x30;
    }
  }

  lemma NatIsCanonical(t: Text)
    requires ParseNat(t).Got?
    ensures t == Digits(ParseNat(t).value) + ParseNat(t).rest
  {
    var n := DigitPrefix(t);
    DigitsAreCanonical(t[..n]);
    assert t == t[..n] + t[n..];
  }

  /** The strict reader takes a value in its canonical text only. */
  lemma {:induction false} ValueIsCanonical(t: Text)
    requires ParseValue(t, true).Got? && Accepted(ParseValue(t, true).value)
    ensures Encode(ParseValue(t, true).value).Ok?
    ensures t == Encode(ParseValue(t, true).value).value + ParseValue(t, true).rest
    decreases |t|, 1
  {
    hide ParseChars, ParseItems, ParseFields, ParseNat, Escape, Digits, EncodeItems, EncodeFields;
    var p := ParseValue(t, true);
    EncodesAccepted(p.value);
    if t[0] in {NULL_TEXT[0], TRUE_TEXT[0], FALSE_TEXT[0]} {
      WordIsCanonical(t);
    } else if t[0] == QUOTE {
      CharsAreCanonical(t[1..]);
      assert t == [t[0]] + t[1..];
    } else if t[0] == MINUS {
      NatIsCanonical(t[1..]);
      assert t == [t[0]] + t[1..];
    } else if t[0] == OPEN_BRACKET {
      ArrayIsCanonical(t);
    } else if t[0] == OPEN_BRACE {
      ObjectIsCanonical(t);
    } else {
      NatIsCanonical(t);
    }
  }

  lemma WordIsCanonical(t: Text)
    requires t != [] && t[0] in {NULL_TEXT[0], TRUE_TEXT[0], FALSE_TEXT[0]} && ParseValue(t, true).Got?
    ensures var p := ParseValue(t, true); Encode(p.value).Ok? && t == Encode(p.value).value + p.rest
  {
    var word := if t[0] == NULL_TEXT[0] then NULL_TEXT else if t[0] == TRUE_TEXT[0] then TRUE_TEXT else FALSE_TEXT;
    assert t == t[..|word|] + t[|word|..];
  }

  lemma {:induction false} ArrayIsCanonical(t: Text)
    requires t != [] && t[0] == OPEN_BRACKET && ParseValue(t, true).Got? && Accepted(ParseValue(t, true).value)
    ensures var p := ParseValue(t, true); Encode(p.value).Ok? && t == Encode(p.value).value + p.rest
    decreases |t|, 0
  {
    hide ParseItems;
    var p := ParseValue(t, true);
    if |t| >= 2 && t[1] == CLOSE_BRACKET {
      assert t == [OPEN_BRACKET] + [] + [CLOSE_BRACKET] + t[2..];
    } else {
      ItemsAreCanonical(t[1..]);
      assert t == [t[0]] + t[1..];
    }
  }

  /** What reading items comes to: the first one, and the rest if a comma follows. */
  lemma FirstItem(t: Text) returns (item: Value, rest: Text)
    requires ParseItems(t, true).Got?
    ensures ParseValue(t, true) == Got(item, rest) && rest != [] && |rest| < |t|
    ensures rest[0] == CLOSE_BRACKET ==> ParseItems(t, true) == Got([item], rest[1..])
    ensures rest[0] != CLOSE_BRACKET ==>
      var others := ParseItems(rest[1..], true);
      rest[0] == COMMA && others.Got? && ParseItems(t, true) == Got([item] + others.value, others.rest)
  {
    hide ParseValue;
    item, rest := ParseValue(t, true).value, ParseValue(t, true).rest;
  }

  lemma ItemsUnfold(item: Value, others: seq<Value>)
    requires Encode(item).Ok? && EncodeItems(others).Ok?
    ensures EncodeItems([item]) == Ok(Encode(item).value)
    ensures others != [] ==>
      EncodeItems([item] + others) == Ok(Encode(item).value + [COMMA] + EncodeItems(others).value)
  {
    hide Encode;
    assert [item][1..] == [] && ([item] + others)[1..] == others;
  }

  lemma {:induction false} ItemsAreCanonical(t: Text)
    requires ParseItems(t, true).Got? && forall x | x in ParseItems(t, true).value :: Accepted(x)
    ensures var p := ParseItems(t, true);
      && p.value != [] && EncodeItems(p.value).Ok?
      && t == EncodeItems(p.value).value + [CLOSE_BRACKET] + p.rest
    decreases |t|, 2
  {
    hide ParseValue, ParseItems, Encode, EncodeItems, Accepted;
    var item, rest := FirstItem(t);
    assert item == ParseItems(t, true).value[0];
    ValueIsCanonical(t);
    assert rest == [rest[0]] + rest[1..];
    if rest[0] == CLOSE_BRACKET {
      NoItems();
      ItemsUnfold(item, []);
    } else {
      var others := ParseItems(rest[1..], true);
      assert forall x | x in others.value :: x in ParseItems(t, true).value;
      ItemsAreCanonical(rest[1..]);
      ItemsUnfold(item, others.value);
      Regroup(Encode(item).value, EncodeItems(others.value).value, CLOSE_BRACKET, others.rest);
    }
  }

  lemma NoItems()
    ensures EncodeItems([]) == Ok([])
  {
  }

  lemma {:induction false} RisingIsSorted(names: seq<Text>)
    requires Rising(names)
    ensures StrictlySorted(names)
  {
    forall i, j | 0 <= i < j < |names| ensures Less(names[i], names[j]) {
      RisingAcross(names, i, j);
    }
  }

  lemma {:induction false} RisingAcross(names: seq<Text>, i: nat, j: nat)
    requires Rising(names) && i < j < |names|
    ensures Less(names[i], names[j])
  {
    if i < j - 1 {
      RisingAcross(names, i, j - 1);
      assert Less(names[j - 1], names[j - 1 + 1]);
      LessTransitive(names[i], names[j - 1], names[j]);
    }
  }

  lemma {:induction false} ObjectIsCanonical(t: Text)
    requires t != [] && t[0] == OPEN_BRACE && ParseValue(t, true).Got? && Accepted(ParseValue(t, true).value)
    ensures var p := ParseValue(t, true); Encode(p.value).Ok? && t == Encode(p.value).value + p.rest
    decreases |t|, 0
  {
    hide ParseFields, EncodeFields, Rising, Accepted;
    var v := ParseValue(t, true).value;
    EncodesAccepted(v);
    if |t| >= 2 && t[1] == CLOSE_BRACE {
      EmptyObject();
      assert t == [OPEN_BRACE] + [] + [CLOSE_BRACE] + t[2..];
    } else {
      var fields := ParseFields(t[1..], true).value;
      RisingIsSorted(fields.names);
      FieldNames(t[1..]);
      SortedIsCanonical(fields.names, SortedSet(v.fields.Keys));
      FieldsAreCanonical(t[1..], v);
      assert t == [t[0]] + t[1..];
    }
  }

  lemma EmptyObject()
    ensures Encode(Obj(map[])) == Ok([OPEN_BRACE] + [] + [CLOSE_BRACE])
  {
    HasElements(SortedSet({}));
  }

  /** What reading fields comes to: the first one, and the rest if a comma follows. */
  lemma FirstField(t: Text) returns (key: Text, text: Text, child: Value, rest: Text)
    requires ParseFields(t, true).Got?
    ensures t != [] && t[0] == QUOTE && ParseChars(t[1..], true) == Got(key, [COLON] + text)
    ensures |rest| < |text| < |t| && rest != [] && ParseValue(text, true) == Got(child, rest)
    ensures rest[0] == CLOSE_BRACE ==> ParseFields(t, true) == Got(Fields([key], map[key := child]), rest[1..])
    ensures rest[0] != CLOSE_BRACE ==>
      var others := ParseFields(rest[1..], true);
      && rest[0] == COMMA && others.Got?
      && ParseFields(t, true)
         == Got(Fields([key] + others.value.names, map[key := child] + others.value.values), others.rest)
  {
    hide ParseValue, ParseChars;
    var name := ParseChars(t[1..], true);
    key, text := name.value, name.rest[1..];
    assert name.rest == [COLON] + text;
    child, rest := ParseValue(text, true).value, ParseValue(text, true).rest;
  }

  lemma {:induction false} FieldNames(t: Text)
    requires ParseFields(t, true).Got?
    ensures var f := ParseFields(t, true).value; f.names != [] && Elements(f.names) == f.values.Keys
    decreases |t|
  {
    hide ParseValue, ParseChars, ParseFields;
    var key, text, child, rest := FirstField(t);
    if rest[0] != CLOSE_BRACE {
      FieldNames(rest[1..]);
      ElementsCons(key, ParseFields(rest[1..], true).value.names);
    }
  }

  /** Where `v` holds, under the names read from the text, the values read with them. */
  lemma {:induction false} FieldsAreCanonical(t: Text, v: Value)
    requires ParseFields(t, true).Got? && v.Obj? && Accepted(v)
    requires var f := ParseFields(t, true).value;
      && StrictlySorted(f.names) && Elements(f.names) <= v.fields.Keys
      && forall k | k in f.values :: k in v.fields && v.fields[k] == f.values[k]
    ensures var p := ParseFields(t, true);
      && EncodeFields(v, p.value.names).Ok?
      && t == EncodeFields(v, p.value.names).value + [CLOSE_BRACE] + p.rest
    decreases |t|, 2
  {
    hide ParseValue, ParseChars, ParseFields, Encode, EncodeFields, Quote, StrictlySorted, Accepted;
    var names, values := ParseFields(t, true).value.names, ParseFields(t, true).value.values;
    var key, text, child, rest := FirstField(t);
    FieldText(t, key, text);
    FieldNames(t);
    FieldsAccepted(v, names);
    NotRepeated(names);
    assert rest == [rest[0]] + rest[1..];
    if rest[0] != CLOSE_BRACE {
      FieldNames(rest[1..]);
      assert names[1..] == ParseFields(rest[1..], true).value.names;
    }
    assert values[key] == child && v.fields[key] == child;
    AcceptedField(v, key);
    ValueIsCanonical(text);
    EncodesAccepted(v);
    FieldsEncode(v, names);
    if rest[0] != CLOSE_BRACE {
      FieldsAreCanonical(rest[1..], v);
      Regroup(Quote(key) + [COLON] + Encode(child).value, EncodeFields(v, names[1..]).value, CLOSE_BRACE,
              ParseFields(rest[1..], true).rest);
    }
  }

  lemma FieldText(t: Text, key: Text, text: Text)
    requires t != [] && t[0] == QUOTE && ParseChars(t[1..], true) == Got(key, [COLON] + text)
    ensures t == Quote(key) + [COLON] + text
  {
    hide ParseChars, Escape;
    CharsAreCanonical(t[1..]);
    assert t == [t[0]] + t[1..];
  }

  lemma AcceptedField(v: Value, key: Text)
    requires v.Obj? && Accepted(v) && key in v.fields
    ensures Accepted(v.fields[key])
  {
  }

  lemma FieldsEncode(v: Value, names: seq<Text>)
    requires v.Obj? && names != [] && Elements(names) <= v.fields.Keys && Accepted(v)
    ensures names[0] in v.fields && Elements(names[1..]) <= v.fields.Keys
    ensures EncodeFields(v, names).Ok? && Encode(v.fields[names[0]]).Ok? && EncodeFields(v, names[1..]).Ok?
    ensures var field := Quote(names[0]) + [COLON] + Encode(v.fields[names[0]]).value;
      EncodeFields(v, names).value
      == if |names| == 1 then field else field + [COMMA] + EncodeFields(v, names[1..]).value
  {
    hide Encode, EncodeFields, Quote;
    FieldsOk(v, names);
    FieldsUnfold(v, names);
  }

  lemma FieldsOk(v: Value, names: seq<Text>)
    requires v.Obj? && Elements(names) <= v.fields.Keys && Accepted(v)
    ensures EncodeFields(v, names).Ok?
  {
    hide Encode, EncodeFields;
    FieldsAccepted(v, names);
  }

  lemma FieldsUnfold(v: Value, names: seq<Text>)
    requires v.Obj? && names != [] && Elements(names) <= v.fields.Keys && EncodeFields(v, names).Ok?
    ensures names[0] in v.fields && Elements(names[1..]) <= v.fields.Keys
    ensures Encode(v.fields[names[0]]).Ok? && EncodeFields(v, names[1..]).Ok?
    ensures var field := Quote(names[0]) + [COLON] + Encode(v.fields[names[0]]).value;
      EncodeFields(v, names).value
      == if |names| == 1 then field else field + [COMMA] + EncodeFields(v, names[1..]).value
  {
    hide Encode, Quote;
    assert names[0] in Elements(names) && Elements(names[1..]) <= Elements(names);
  }

  lemma NotRepeated(names: seq<Text>)
    requires names != [] && StrictlySorted(names)
    ensures names[0] !in Elements(names[1..]) && StrictlySorted(names[1..]) && Elements(names[1..]) <= Elements(names)
  {
    hide Leq;
    assert forall j | 0 <= j < |names| - 1 :: names[1..][j] == names[j + 1];
  }

  /** A value has exactly one text that the strict reader takes: its canonical text. */
  lemma StrictIsCanonical(t: Text, v: Value)
    requires Accepted(v)
    ensures Decode(t, true) == Got(v, []) <==> Encode(v) == Ok(t)
  {
    hide ParseValue;
    RoundTrip(v, true);
    if Decode(t, true) == Got(v, []) {
      ValueIsCanonical(t);
      assert Encode(v).value + [] == Encode(v).value;
    }
  }

  /** The safe integers are those of 53 bits and a sign. */
  lemma SafeIntegerIs(n: int)
    ensures SafeInteger(n) <==> -0x20_0000_0000_0000 < n < 0x20_0000_0000_0000
  {
  }

  // ---------- Dropping a field ----------

  /** The fields other than `field` that are defined. */
  ghost function Without(fields: map<Text, Value>, field: Text): map<Text, Value> {
    map k | k in fields && k != field && !fields[k].Undefined? :: fields[k]
  }

  method WithoutField(fields: map<Text, Value>, field: Text) returns (copy: map<Text, Value>)
    ensures copy == Without(fields, field)
  {
    copy := map[];
    var entries := fields.Keys;
    while entries != {}
      invariant entries <= fields.Keys
      invariant copy == Without(fields - entries, field)
      decreases |entries|
    {
      var key :| key in entries;
      if key != field && !fields[key].Undefined? {
        copy := copy[key := fields[key]];
      }
      entries := entries - {key};
    }
    assert fields - {} == fields;
  }
}
