/** The pool's event lines: what the program logs, and the decoder that turns a line's tokens back into
    an event. Hexadecimal strings are kept as the bytes they spell. */
module EventDecoder {
  import opened Hashing
  import opened LeanImt
  import opened Outcomes
  import opened JsBits
  import opened Borsh
  import PoolSpec
  import Base64
  import LogScope

  type Text = seq<byte>   // UTF-8

  // Names here are ASCII, one byte a character.
  function Utf8(s: string): (t: Text)
    ensures |t| == |s|
  {
    seq(|s|, i requires 0 <= i < |s| => s[i] as int % 256)
  }

  datatype Field = Field(name: string, ty: IdlType)
  datatype TypeDef = TypeDef(name: Text, fields: seq<Field>)

  type Fields = map<string, Js>

  // ----- structs -----

  function FindType(types: seq<TypeDef>, name: Text): Option<seq<Field>> {
    if types == [] then None else if types[0].name == name then Some(types[0].fields) else FindType(types[1..], name)
  }

  function ParseFields(fields: seq<Field>, b: seq<byte>, acc: Fields): Result<Fields, DecodeError> {
    if fields == [] then Ok(acc)
    else
      var (v, rest) :- Parse(fields[0].ty, b);
      ParseFields(fields[1..], rest, acc[fields[0].name := v])
  }

  function ParseBody(types: seq<TypeDef>, eventName: Text, body: seq<byte>): Result<Fields, DecodeError> {
    match FindType(types, eventName)
    case None => Err(NoTypeDefinition)
    case Some(fields) => ParseFields(fields, body, map[])
  }

  method DecodeBody(types: seq<TypeDef>, eventName: Text, body: seq<byte>) returns (r: Result<Fields, DecodeError>)
    ensures r == ParseBody(types, eventName, body)
  {
    hide Parse;
    var typeDef := FindType(types, eventName);
    if typeDef.None? {
      return Err(NoTypeDefinition);
    }
    var todo := typeDef.value;
    var reader := new Reader(body);
    var fields: Fields := map[];
    for i := 0 to |todo|
      invariant reader.Valid()
      invariant ParseFields(todo[i..], reader.Rest(), fields) == ParseBody(types, eventName, body)
    {
      assert todo[i..][0] == todo[i] && todo[i..][1..] == todo[i + 1..];
      var v := reader.DecodeValue(todo[i].ty);
      if v.Err? { return Err(v.error); }
      fields := fields[todo[i].name := v.value];
    }
    r := Ok(fields);
  }

  predicate HasTypes(vs: seq<Value>, fields: seq<Field>) {
    |vs| == |fields| && forall i :: 0 <= i < |vs| ==> HasType(vs[i], fields[i].ty)
  }

  predicate DistinctNames(fields: seq<Field>) {
    forall i, j :: 0 <= i < j < |fields| ==> fields[i].name != fields[j].name
  }

  // Decoding a struct's bytes, with anything behind them, recovers every field and nothing else.
  lemma {:induction false} StructRoundTrip(fields: seq<Field>, vs: seq<Value>, tail: seq<byte>, acc: Fields)
    requires HasTypes(vs, fields) && DistinctNames(fields)
    ensures var r := ParseFields(fields, EncodeAll(vs) + tail, acc);
      && r.Ok?
      && (forall i :: 0 <= i < |fields| ==> fields[i].name in r.value && r.value[fields[i].name] == ToJs(vs[i], fields[i].ty))
      && (forall name :: name in r.value <==> name in acc || exists i :: 0 <= i < |fields| && fields[i].name == name)
      && (forall name :: name in acc && (forall i :: 0 <= i < |fields| ==> fields[i].name != name) ==> name in r.value && r.value[name] == acc[name])
  {
    hide Parse, ToJs, HasType, Encode;
    if fields != [] {
      var rest := EncodeAll(vs[1..]) + tail;
      assert EncodeAll(vs) + tail == Encode(vs[0]) + rest;
      RoundTrip(vs[0], fields[0].ty, rest);
      var acc' := acc[fields[0].name := ToJs(vs[0], fields[0].ty)];
      StructRoundTrip(fields[1..], vs[1..], tail, acc');
      var r := ParseFields(fields, EncodeAll(vs) + tail, acc);
      assert r == ParseFields(fields[1..], rest, acc');
      forall i | 0 <= i < |fields|
        ensures fields[i].name in r.value && r.value[fields[i].name] == ToJs(vs[i], fields[i].ty)
      {
        if i > 0 {
          assert fields[i] == fields[1..][i - 1] && vs[i] == vs[1..][i - 1];
        }
      }
    }
  }

  // ----- the pool's events -----

  // The BN254 scalar field's order.
  const FIELD_MODULUS: nat := 21888242871839275222246405745257275088548364400416034343698204186575808495617

  function BigEndian(n: nat, width: nat): (bytes: seq<byte>)
    ensures |bytes| == width
  {
    if width == 0 then [] else BigEndian(n / 256, width - 1) + [n % 256]
  }

  // `BigInt("0x" + hex)`
  function FromBigEndian(b: seq<byte>): nat {
    if b == [] then 0 else FromBigEndian(b[..|b| - 1]) * 256 + b[|b| - 1] as nat
  }

  lemma {:induction false} BigEndianRoundTrip(n: nat, width: nat)
    requires n < Pow2(8 * width)
    ensures FromBigEndian(BigEndian(n, width)) == n
  {
    hide Pow2;
    Pow2Values();
    if width > 0 {
      PowSplits(8, 8 * (width - 1));
      BigEndianRoundTrip(n / 256, width - 1);
      var b := BigEndian(n, width);
      assert b[..width - 1] == BigEndian(n / 256, width - 1);
    }
  }

  function Word32(n: nat): seq<byte> { BigEndian(n, 32) }

  const BYTES32: IdlType := Array(U8, 32)

  function Value32(n: nat): Value { ArrayV(ByteValues(Word32(n))) }

  lemma Word32ToJs(n: nat)
    ensures HasType(Value32(n), BYTES32) && ToJs(Value32(n), BYTES32) == Bytes(Word32(n))
  {
  }

  const NOTE_INSERTED: Text := Utf8("NoteInserted")
  const NULLIFIER_SPENT: Text := Utf8("NullifierSpent")
  const KEY_ROTATED: Text := Utf8("ComplianceKeyRotated")
  const TAG_PREFIX: Text := Utf8("kakure:")

  const NOTE_FIELDS: seq<Field> :=
    [Field("leaf_index", U64), Field("leaf", BYTES32), Field("eph_pub_x", BYTES32), Field("tag", Opt(BYTES32)),
     Field("cek_wrap", Opt(BYTES32)), Field("ciphertext", Array(BYTES32, 7)), Field("root", BYTES32)]
  const NULLIFIER_FIELDS: seq<Field> := [Field("nullifier", BYTES32)]
  const KEY_FIELDS: seq<Field> :=
    [Field("old_version", U32), Field("new_version", U32), Field("x", BYTES32), Field("y", BYTES32)]

  const POOL_IDL: seq<TypeDef> :=
    [TypeDef(NOTE_INSERTED, NOTE_FIELDS), TypeDef(NULLIFIER_SPENT, NULLIFIER_FIELDS), TypeDef(KEY_ROTATED, KEY_FIELDS)]

  // ----- writing -----

  function OptionValue(x: Option<Fr>): Value {
    match x case None => NoneV case Some(n) => SomeV(Value32(n))
  }

  function NameOf(e: PoolSpec.Event): Text {
    match e
    case NoteInserted(_, _, _, _, _, _, _) => NOTE_INSERTED
    case NullifierSpentEvent(_) => NULLIFIER_SPENT
    case ComplianceKeyRotated(_, _, _, _) => KEY_ROTATED
  }

  function ValuesOf(e: PoolSpec.Event): seq<Value> {
    match e
    case NoteInserted(leafIndex, leaf, eph, tag, wrap, ct, root) =>
      [U64V(leafIndex), Value32(leaf), Value32(eph), OptionValue(tag), OptionValue(wrap),
       ArrayV(seq(|ct|, i requires 0 <= i < |ct| => Value32(ct[i]))), Value32(root)]
    case NullifierSpentEvent(nullifier) => [Value32(nullifier)]
    case ComplianceKeyRotated(oldVersion, newVersion, x, y) => [U32V(oldVersion), U32V(newVersion), Value32(x), Value32(y)]
  }

  // The two tokens of the event's data line.
  function Tokens(e: PoolSpec.Event): seq<seq<byte>> {
    [TAG_PREFIX + NameOf(e), EncodeAll(ValuesOf(e))]
  }

  // What `sol_log_data` prints: both tokens in base64.
  function LineOf(e: PoolSpec.Event): string {
    LogScope.DATA + TextOf(e)
  }

  function TextOf(e: PoolSpec.Event): string {
    Base64.Encode(Tokens(e)[0]) + " " + Base64.Encode(Tokens(e)[1])
  }

  // An event as 32-byte words can carry it, with the fields the tree uses canonical.
  predicate Fits32(n: nat) { n < Pow2(256) }

  predicate Carried(e: PoolSpec.Event) {
    match e
    case NoteInserted(leafIndex, leaf, eph, tag, wrap, ct, root) =>
      && leafIndex < WORD * WORD && leaf < FIELD_MODULUS && root < FIELD_MODULUS && |ct| == 7
      && Fits32(leaf) && Fits32(root) && Fits32(eph) && (forall i :: 0 <= i < |ct| ==> Fits32(ct[i]))
      && (tag.Some? ==> Fits32(tag.value)) && (wrap.Some? ==> Fits32(wrap.value))
    case NullifierSpentEvent(nullifier) => Fits32(nullifier)
    case ComplianceKeyRotated(oldVersion, newVersion, x, y) =>
      oldVersion < WORD && newVersion < WORD && Fits32(x) && Fits32(y)
  }

  // ----- reading -----

  datatype PoolEvent =
    | NoteInserted(leafIndex: nat, leaf: seq<byte>, ephPubX: seq<byte>, tag: Option<seq<byte>>,
                   cekWrap: Option<seq<byte>>, ciphertext: seq<seq<byte>>, root: seq<byte>)
    | NullifierSpent(nullifier: seq<byte>)
    | KeyRotated(oldVersion: nat, newVersion: nat, x: seq<byte>, y: seq<byte>)

  type Decoded<T> = Result<T, DecodeError>

  // A field that is absent reads as undefined, which no conversion accepts.
  function ToHex(f: Fields, name: string): Decoded<seq<byte>> {
    if name in f && f[name].Bytes? then Ok(f[name].bytes) else Err(WrongFieldShape)
  }

  function ToHexOrNull(f: Fields, name: string): Decoded<Option<seq<byte>>> {
    if name in f && f[name].Null? then Ok(None) else var b :- ToHex(f, name); Ok(Some(b))
  }

  function ToHexArray(f: Fields, name: string): Decoded<seq<seq<byte>>> {
    if name in f && f[name].List? && (forall i :: 0 <= i < |f[name].items| ==> f[name].items[i].Bytes?)
    then Ok(seq(|f[name].items|, i requires 0 <= i < |f[name].items| => f[name].items[i].bytes))
    else Err(WrongFieldShape)
  }

  function AsNumber(f: Fields, name: string): Decoded<nat> {
    if name !in f then Err(WrongFieldShape)
    else match f[name] case Num(n) => Ok(n) case Big(n) => Ok(n) case _ => Err(WrongFieldShape)
  }

  function ToDomainEvent(name: Text, f: Fields): Decoded<PoolEvent> {
    if name == NOTE_INSERTED then
      var leafIndex :- AsNumber(f, "leaf_index");
      var leaf :- ToHex(f, "leaf");
      var eph :- ToHex(f, "eph_pub_x");
      var tag :- ToHexOrNull(f, "tag");
      var wrap :- ToHexOrNull(f, "cek_wrap");
      var ct :- ToHexArray(f, "ciphertext");
      var root :- ToHex(f, "root");
      Ok(NoteInserted(leafIndex, leaf, eph, tag, wrap, ct, root))
    else if name == NULLIFIER_SPENT then
      var nullifier :- ToHex(f, "nullifier");
      Ok(NullifierSpent(nullifier))
    else if name == KEY_ROTATED then
      var oldVersion :- AsNumber(f, "old_version");
      var newVersion :- AsNumber(f, "new_version");
      var x :- ToHex(f, "x");
      var y :- ToHex(f, "y");
      Ok(KeyRotated(oldVersion, newVersion, x, y))
    else Err(NoDomainMapping)
  }

  // The tokens of a data line: tag, body, and anything further ignored.
  function DecodeLine(types: seq<TypeDef>, tokens: seq<seq<byte>>): Decoded<(Text, Fields)> {
    if |tokens| < 2 then Err(TooFewFields)
    else if !(TAG_PREFIX <= tokens[0]) then Err(NotAKakureTag)
    else
      var name := tokens[0][|TAG_PREFIX|..];
      var fields :- ParseBody(types, name, tokens[1]);
      Ok((name, fields))
  }

  // `trim().split(/\s+/)`, up to the empty text, which has too few words either way.
  function Words(s: string): seq<string>
    decreases |s|
  {
    if s == "" then []
    else if LogScope.IsSpace(s[0]) then Words(s[1..])
    else var k := LogScope.WordEnd(s); [s[..k]] + Words(s[k..])
  }

  function TokensIn(line: string): seq<seq<byte>>
    requires LogScope.DATA <= line
  {
    var words := Words(line[|LogScope.DATA|..]);
    seq(|words|, i requires 0 <= i < |words| => Base64.Decode(words[i]))
  }

  // None for a line that is no data line at all.
  function DecodeDataLine(types: seq<TypeDef>, line: string): Option<Decoded<(Text, Fields)>> {
    if LogScope.DATA <= line then Some(DecodeLine(types, TokensIn(line))) else None
  }

  // What the indexer is meant to see of an event.
  function DomainOf(e: PoolSpec.Event): PoolEvent {
    match e
    case NoteInserted(leafIndex, leaf, eph, tag, wrap, ct, root) =>
      NoteInserted(leafIndex, Word32(leaf), Word32(eph), WordOrNone(tag), WordOrNone(wrap),
                   seq(|ct|, i requires 0 <= i < |ct| => Word32(ct[i])), Word32(root))
    case NullifierSpentEvent(nullifier) => NullifierSpent(Word32(nullifier))
    case ComplianceKeyRotated(oldVersion, newVersion, x, y) => KeyRotated(oldVersion, newVersion, Word32(x), Word32(y))
  }

  function WordOrNone(x: Option<Fr>): Option<seq<byte>> {
    match x case None => None case Some(n) => Some(Word32(n))
  }

  // ----- reading inverts writing -----

  function FieldsFor(e: PoolSpec.Event): seq<Field> {
    match e
    case NoteInserted(_, _, _, _, _, _, _) => NOTE_FIELDS
    case NullifierSpentEvent(_) => NULLIFIER_FIELDS
    case ComplianceKeyRotated(_, _, _, _) => KEY_FIELDS
  }

  lemma NamesFindTheirTypes(e: PoolSpec.Event)
    ensures FindType(POOL_IDL, NameOf(e)) == Some(FieldsFor(e))
    ensures NOTE_INSERTED != NULLIFIER_SPENT && NULLIFIER_SPENT != KEY_ROTATED && NOTE_INSERTED != KEY_ROTATED
  {
    assert |NOTE_INSERTED| == 12 && |NULLIFIER_SPENT| == 14 && |KEY_ROTATED| == 20;
    hide NOTE_FIELDS, NULLIFIER_FIELDS, KEY_FIELDS;
    var types := POOL_IDL;
    FindStep(types, NameOf(e));
    FindStep(types[1..], NameOf(e));
    FindStep(types[2..], NameOf(e));
  }

  lemma FindStep(types: seq<TypeDef>, name: Text)
    requires types != []
    ensures FindType(types, name) == if types[0].name == name then Some(types[0].fields) else FindType(types[1..], name)
  {
  }

  lemma NamesAreDistinct(e: PoolSpec.Event)
    ensures DistinctNames(FieldsFor(e))
  {
    assert "leaf_index"[0] != "ciphertext"[0] && "leaf"[0] != "root"[0] && "x"[0] != "y"[0] && "old_version"[0] != "new_version"[0];
  }

  lemma OptionToJs(x: Option<Fr>)
    ensures HasType(OptionValue(x), Opt(BYTES32))
    ensures ToJs(OptionValue(x), Opt(BYTES32)) == if x.None? then Null else Bytes(Word32(x.value))
  {
    if x.Some? { Word32ToJs(x.value); }
  }

  lemma CiphertextToJs(ct: seq<Fr>)
    ensures var v, ty := ArrayV(seq(|ct|, i requires 0 <= i < |ct| => Value32(ct[i]))), Array(BYTES32, |ct|);
      HasType(v, ty) && ToJs(v, ty) == List(seq(|ct|, i requires 0 <= i < |ct| => Bytes(Word32(ct[i]))))
  {
    hide Value32, Word32;
    var vs := seq(|ct|, i requires 0 <= i < |ct| => Value32(ct[i]));
    forall i | 0 <= i < |ct| ensures HasType(vs[i], BYTES32) && ToJs(vs[i], BYTES32) == Bytes(Word32(ct[i])) {
      Word32ToJs(ct[i]);
    }
    ArrayToJs(vs, BYTES32);
    assert AllToJs(vs, BYTES32) == seq(|ct|, i requires 0 <= i < |ct| => Bytes(Word32(ct[i])));
  }

  lemma NumbersToJs(n: nat)
    ensures n < WORD * WORD ==> HasType(U64V(n), U64) && ToJs(U64V(n), U64) == Big(n)
    ensures n < WORD ==> HasType(U32V(n), U32) && ToJs(U32V(n), U32) == Num(n)
  {
  }

  lemma NoteFields(e: PoolSpec.Event)
    requires e.NoteInserted? && Carried(e)
    ensures var vs, fs := ValuesOf(e), NOTE_FIELDS;
      && HasTypes(vs, fs)
      && ToJs(vs[0], fs[0].ty) == Big(e.leafIndex) && ToJs(vs[1], fs[1].ty) == Bytes(Word32(e.leaf))
      && ToJs(vs[2], fs[2].ty) == Bytes(Word32(e.ephPubX))
      && ToJs(vs[3], fs[3].ty) == (if e.tag.None? then Null else Bytes(Word32(e.tag.value)))
      && ToJs(vs[4], fs[4].ty) == (if e.cekWrap.None? then Null else Bytes(Word32(e.cekWrap.value)))
      && ToJs(vs[5], fs[5].ty) == List(seq(|e.ciphertext|, i requires 0 <= i < |e.ciphertext| => Bytes(Word32(e.ciphertext[i]))))
      && ToJs(vs[6], fs[6].ty) == Bytes(Word32(e.root))
  {
    hide Value32, Word32, OptionValue, BYTES32, HasType, ToJs;
    var vs, fs := ValuesOf(e), NOTE_FIELDS;
    NumbersToJs(e.leafIndex);
    Word32ToJs(e.leaf);
    Word32ToJs(e.ephPubX);
    Word32ToJs(e.root);
    OptionToJs(e.tag);
    OptionToJs(e.cekWrap);
    CiphertextToJs(e.ciphertext);
  }

  // Whatever trails the body, the decoded fields convert to exactly the event that was logged.
  lemma NoteBody(e: PoolSpec.Event, tail: seq<byte>)
    requires e.NoteInserted? && Carried(e)
    ensures var r := ParseFields(NOTE_FIELDS, EncodeAll(ValuesOf(e)) + tail, map[]);
      r.Ok? && ToDomainEvent(NOTE_INSERTED, r.value) == Ok(DomainOf(e))
  {
    hide ToJs, HasType, HasTypes, ValuesOf, ParseFields, Word32, DistinctNames, BYTES32;
    var vs, fs := ValuesOf(e), NOTE_FIELDS;
    NoteFields(e);
    NamesAreDistinct(e);
    StructRoundTrip(fs, vs, tail, map[]);
    var f := ParseFields(fs, EncodeAll(vs) + tail, map[]).value;
    assert f[fs[0].name] == Big(e.leafIndex);
    assert f[fs[1].name] == Bytes(Word32(e.leaf));
    assert f[fs[2].name] == Bytes(Word32(e.ephPubX));
    assert ToHexOrNull(f, fs[3].name) == Ok(WordOrNone(e.tag));
    assert ToHexOrNull(f, fs[4].name) == Ok(WordOrNone(e.cekWrap));
    assert f[fs[5].name].List?;
    assert ToHexArray(f, fs[5].name).value == DomainOf(e).ciphertext;
    assert f[fs[6].name] == Bytes(Word32(e.root));
  }

  lemma OtherBodies(e: PoolSpec.Event, tail: seq<byte>)
    requires !e.NoteInserted? && Carried(e)
    ensures var r := ParseFields(FieldsFor(e), EncodeAll(ValuesOf(e)) + tail, map[]);
      r.Ok? && ToDomainEvent(NameOf(e), r.value) == Ok(DomainOf(e))
  {
    hide ToJs, HasType, ParseFields, Value32, Word32, DistinctNames, BYTES32;
    NamesFindTheirTypes(e);
    NamesAreDistinct(e);
    hide NOTE_INSERTED, NULLIFIER_SPENT, KEY_ROTATED;
    var vs, fs := ValuesOf(e), FieldsFor(e);
    match e {
      case NullifierSpentEvent(nullifier) =>
        Word32ToJs(nullifier);
        StructRoundTrip(fs, vs, tail, map[]);
        var f := ParseFields(fs, EncodeAll(vs) + tail, map[]).value;
        assert f[fs[0].name] == Bytes(Word32(nullifier));
      case ComplianceKeyRotated(oldVersion, newVersion, x, y) =>
        NumbersToJs(oldVersion);
        NumbersToJs(newVersion);
        Word32ToJs(x);
        Word32ToJs(y);
        StructRoundTrip(fs, vs, tail, map[]);
        var f := ParseFields(fs, EncodeAll(vs) + tail, map[]).value;
        assert f[fs[0].name] == Num(oldVersion);
        assert f[fs[1].name] == Num(newVersion);
        assert f[fs[2].name] == Bytes(Word32(x));
        assert f[fs[3].name] == Bytes(Word32(y));
    }
  }

  // ----- the line's text -----

  predicate Plain(s: string) {
    forall i :: 0 <= i < |s| ==> !LogScope.IsSpace(s[i]) && s[i] != '['
  }

  lemma SymbolIsPlain(v: Base64.Sextet)
    ensures !LogScope.IsSpace(Base64.Symbol(v)) && Base64.Symbol(v) != '['
  {
  }

  lemma GroupIsPlain(b0: byte, b1: Option<byte>, b2: Option<byte>)
    requires b1.None? ==> b2.None?
    ensures Plain(Base64.Group(b0, b1, b2))
  {
    hide LogScope.IsSpace, Base64.Symbol, Base64.First, Base64.Second, Base64.Third, Base64.Fourth;
    Base64.SextetsOf(b0, b1, b2);
    PadIsPlain();
    forall v: Base64.Sextet ensures !LogScope.IsSpace(Base64.Symbol(v)) && Base64.Symbol(v) != '[' { SymbolIsPlain(v); }
  }

  lemma PadIsPlain()
    ensures !LogScope.IsSpace('=') && LogScope.IsSpace(' ')
  {
  }

  lemma {:induction false} EncodingIsPlain(bytes: seq<byte>)
    ensures Plain(Base64.Encode(bytes))
    ensures bytes != [] ==> |Base64.Encode(bytes)| >= 4 && Base64.Encode(bytes)[0] == Base64.Symbol(bytes[0] / 4)
  {
    hide LogScope.IsSpace, Base64.Group, Base64.Symbol;
    if bytes != [] {
      GroupIsPlain(bytes[0], Base64.At(bytes, 1), Base64.At(bytes, 2));
      GroupStarts(bytes[0], Base64.At(bytes, 1), Base64.At(bytes, 2));
      if |bytes| > 3 {
        EncodingIsPlain(bytes[3..]);
      }
    }
  }

  lemma GroupStarts(b0: byte, b1: Option<byte>, b2: Option<byte>)
    requires b1.None? ==> b2.None?
    ensures Base64.Group(b0, b1, b2)[0] == Base64.Symbol(b0 / 4)
  {
    hide Base64.Symbol;
    Base64.SextetsOf(b0, b1, b2);
  }

  lemma TwoWords(x: string, y: string)
    requires x != "" && y != "" && Plain(x) && Plain(y)
    ensures Words(x + " " + y) == [x, y]
  {
    hide LogScope.IsSpace, LogScope.WordEnd;
    PadIsPlain();
    var rest := " " + y;
    var all := x + " " + y;
    assert all == x + rest && all[0] == x[0];
    LogScope.WordEnds(x, rest);
    assert all[..|x|] == x && all[|x|..] == rest;
    assert rest[0] == ' ' && rest[1..] == y;
    OneWord(y);
    assert Words(rest) == Words(y);
    assert [x] + [y] == [x, y];
  }

  lemma OneWord(y: string)
    requires y != "" && Plain(y)
    ensures Words(y) == [y]
  {
    hide LogScope.IsSpace, LogScope.WordEnd;
    assert y + "" == y;
    LogScope.WordEnds(y, "");
    assert y[..|y|] == y && y[|y|..] == "";
    assert Words("") == [];
  }

  // A pool event's line is printed as data, gives back its tokens, and is never masked: its tag's first
  // character is an 'a'.
  lemma LineReadsBack(e: PoolSpec.Event)
    ensures TokensIn(LineOf(e)) == Tokens(e)
    ensures '[' !in TextOf(e) && !LogScope.Masked(LineOf(e))
  {
    hide Base64.Encode, Base64.Decode, Words, EncodeAll, ValuesOf, Utf8, LogScope.IsSpace;
    var tag, body := Tokens(e)[0], Tokens(e)[1];
    TagStarts(e);
    BodyIsNotEmpty(e);
    EncodingIsPlain(tag);
    EncodingIsPlain(body);
    var x, y := Base64.Encode(tag), Base64.Encode(body);
    TwoWords(x, y);
    Base64.RoundTrip(tag);
    Base64.RoundTrip(body);
    var line := LineOf(e);
    assert line[|LogScope.DATA|..] == x + " " + y;
    assert TokensIn(line) == [tag, body];
    assert (" " + (x + " " + y))[1] == x[0] == 'a';
  }

  lemma TagStarts(e: PoolSpec.Event)
    ensures var tag := Tokens(e)[0]; tag != [] && Base64.Symbol(tag[0] / 4) == 'a'
  {
    var tag := Tokens(e)[0];
    assert TAG_PREFIX[0] == "kakure:"[0] as int % 256;
    assert tag[0] == 107;
  }

  lemma BodyIsNotEmpty(e: PoolSpec.Event)
    ensures Tokens(e)[1] != []
  {
    hide ByteValues, BigEndian;
    var vs := ValuesOf(e);
    assert vs != [] && EncodeAll(vs) == Encode(vs[0]) + EncodeAll(vs[1..]);
    match e {
      case NoteInserted(leafIndex, _, _, _, _, _, _) => assert Encode(vs[0]) == LittleEndian(leafIndex, 8);
      case NullifierSpentEvent(nullifier) => assert Encode(vs[0]) == Word32(nullifier);
      case ComplianceKeyRotated(oldVersion, _, _, _) => assert Encode(vs[0]) == LittleEndian(oldVersion, 4);
    }
  }

  // A logged event's line decodes to that event: every field, under the right name.
  lemma LineRoundTrip(e: PoolSpec.Event)
    requires Carried(e)
    ensures var r := DecodeLine(POOL_IDL, Tokens(e));
      r.Ok? && ToDomainEvent(r.value.0, r.value.1) == Ok(DomainOf(e))
  {
    hide ParseFields, ToDomainEvent, DomainOf, Carried;
    var name, body := NameOf(e), EncodeAll(ValuesOf(e));
    assert (TAG_PREFIX + name)[|TAG_PREFIX|..] == name;
    assert body + [] == body;
    NamesFindTheirTypes(e);
    if e.NoteInserted? {
      NoteBody(e, []);
    } else {
      OtherBodies(e, []);
    }
  }
}
