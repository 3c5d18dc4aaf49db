/** Borsh bytes of event bodies: what the program writes and what the indexer's IDL-driven decoder reads. */
module Borsh {
  import opened LeanImt
  import opened Outcomes
  import opened JsBits

  datatype IdlType =
    | U8 | U16 | U32 | U64 | Bool
    | Array(elem: IdlType, len: nat)
    | Opt(inner: IdlType)
    | Defined(name: string)

  datatype DecodeError = UnexpectedEnd | U16NotImplemented | InvalidOptionTag(tag: byte) | UnsupportedType
                       | NoTypeDefinition | TooFewFields | NotAKakureTag | NoDomainMapping | WrongFieldShape

  // What the decoder hands out: numbers, bigints, booleans, byte arrays, arrays and null.
  datatype Js = Num(n: nat) | Big(big: nat) | Flag(b: bool) | Bytes(bytes: seq<byte>) | List(items: seq<Js>) | Null

  // ----- what the program writes -----

  datatype Value =
    | U8V(byte: byte) | U32V(n: nat) | U64V(n: nat) | BoolV(b: bool)
    | ArrayV(elems: seq<Value>) | NoneV | SomeV(inner: Value)

  // A value of a type. Neither u16 nor a reference to another type is readable, so they have no values here.
  predicate HasType(v: Value, ty: IdlType) {
    match ty
    case U8 => v.U8V?
    case U32 => v.U32V? && v.n < WORD
    case U64 => v.U64V? && v.n < WORD * WORD
    case Bool => v.BoolV?
    case Array(elem, len) => v.ArrayV? && |v.elems| == len && forall i :: 0 <= i < len ==> HasType(v.elems[i], elem)
    case Opt(inner) => v.NoneV? || (v.SomeV? && HasType(v.inner, inner))
    case _ => false
  }

  function LittleEndian(n: nat, width: nat): (bytes: seq<byte>)
    ensures |bytes| == width
  {
    if width == 0 then [] else [n % 256] + LittleEndian(n / 256, width - 1)
  }

  function Encode(v: Value): seq<byte> {
    match v
    case U8V(n) => [n]
    case U32V(n) => LittleEndian(n, 4)
    case U64V(n) => LittleEndian(n, 8)
    case BoolV(b) => [if b then 1 else 0]
    case ArrayV(elems) => EncodeAll(elems)
    case NoneV => [0]
    case SomeV(inner) => [1] + Encode(inner)
  }

  function EncodeAll(vs: seq<Value>): seq<byte> {
    if vs == [] then [] else Encode(vs[0]) + EncodeAll(vs[1..])
  }

  // The JavaScript value that stands for a value: `Some(x)` is x itself and `None` is null.
  function ToJs(v: Value, ty: IdlType): Js
    requires HasType(v, ty)
    decreases ty
  {
    match ty
    case U8 => Num(v.byte)
    case U32 => Num(v.n)
    case U64 => Big(v.n)
    case Bool => Flag(v.b)
    case Array(elem, len) =>
      if elem.U8? then Bytes(BytesOf(v.elems))
      else List(seq(len, i requires 0 <= i < len => ToJs(v.elems[i], elem)))
    case Opt(inner) => if v.NoneV? then Null else ToJs(v.inner, inner)
  }

  function BytesOf(vs: seq<Value>): seq<byte> {
    seq(|vs|, i requires 0 <= i < |vs| => if vs[i].U8V? then vs[i].byte else 0)
  }

  // ----- reading -----

  type Read<T> = Result<(T, seq<byte>), DecodeError>  // a value and the bytes left

  function Split(n: nat, b: seq<byte>): Read<seq<byte>> {
    if n <= |b| then Ok((b[..n], b[n..])) else Err(UnexpectedEnd)
  }

  // `(b0 | b1 << 8 | b2 << 16 | b3 << 24) >>> 0`
  function U32Of(b: seq<byte>): nat
    requires |b| == 4
  {
    Unsigned(BitOr(BitOr(BitOr(b[0], ShiftLeft(b[1], 8)), ShiftLeft(b[2], 16)), ShiftLeft(b[3], 24)))
  }

  function FromLittleEndian(b: seq<byte>): nat {
    if b == [] then 0 else Or(FromLittleEndian(b[1..]) * 256, b[0])
  }

  function Parse(ty: IdlType, b: seq<byte>): Read<Js>
    decreases ty, 0
  {
    match ty
    case U8 => var (x, rest) :- Split(1, b); Ok((Num(x[0]), rest))
    case U16 => Err(U16NotImplemented)
    case U32 => var (x, rest) :- Split(4, b); Ok((Num(U32Of(x)), rest))
    case U64 => var (x, rest) :- Split(8, b); Ok((Big(FromLittleEndian(x)), rest))
    case Bool => var (x, rest) :- Split(1, b); Ok((Flag(x[0] != 0), rest))
    case Array(elem, len) =>
      if elem.U8? then var (x, rest) :- Split(len, b); Ok((Bytes(x), rest))
      else var (items, rest) :- ParseMany(elem, len, b); Ok((List(items), rest))
    case Opt(inner) =>
      var (tag, rest) :- Split(1, b);
      if tag[0] == 0 then Ok((Null, rest))
      else if tag[0] == 1 then Parse(inner, rest)
      else Err(InvalidOptionTag(tag[0]))
    case Defined(_) => Err(UnsupportedType)
  }

  function ParseMany(elem: IdlType, n: nat, b: seq<byte>): Read<seq<Js>>
    decreases elem, n + 1
  {
    if n == 0 then Ok(([], b))
    else
      var (first, rest) :- Parse(elem, b);
      var (others, left) :- ParseMany(elem, n - 1, rest);
      Ok(([first] + others, left))
  }

  // ----- the reader -----

  class Reader {
    const buf: seq<byte>
    var offset: nat

    ghost predicate Valid()
      reads this
    {
      offset <= |buf|
    }

    function Rest(): seq<byte>
      reads this
      requires Valid()
    {
      buf[offset..]
    }

    constructor (buf: seq<byte>)
      ensures Valid() && Rest() == buf
    {
      this.buf, offset := buf, 0;
    }

    method Take(n: nat) returns (r: Result<seq<byte>, DecodeError>)
      requires Valid()
      modifies this
      ensures Valid()
      ensures match Split(n, old(Rest()))
              case Ok((x, rest)) => r == Ok(x) && Rest() == rest
              case Err(e) => r == Err(e) && Rest() == old(Rest())
    {
      if offset + n > |buf| {
        return Err(UnexpectedEnd);
      }
      var out := buf[offset..offset + n];
      assert Rest()[..n] == out && Rest()[n..] == buf[offset + n..];
      offset := offset + n;
      r := Ok(out);
    }

    // The bigint read from the most significant byte down.
    method U64() returns (r: Result<nat, DecodeError>)
      requires Valid()
      modifies this
      ensures Valid()
      ensures match Split(8, old(Rest()))
              case Ok((x, rest)) => r == Ok(FromLittleEndian(x)) && Rest() == rest
              case Err(e) => r == Err(e)
    {
      var b := Take(8);
      if b.Err? { return Err(b.error); }
      var value: nat := 0;
      for i := 8 downto 0
        invariant value == FromLittleEndian(b.value[i..])
      {
        value := Or(value * 256, b.value[i]);
      }
      r := Ok(value);
    }

    method DecodeValue(ty: IdlType) returns (r: Result<Js, DecodeError>)
      requires Valid()
      modifies this
      ensures Valid()
      ensures match Parse(ty, old(Rest()))
              case Ok((v, rest)) => r == Ok(v) && Rest() == rest
              case Err(e) => r == Err(e)
      decreases ty, 0
    {
      match ty {
        case U8 =>
          var b := Take(1);
          r := if b.Err? then Err(b.error) else Ok(Num(b.value[0]));
        case U16 => r := Err(U16NotImplemented);
        case U32 =>
          var b := Take(4);
          r := if b.Err? then Err(b.error) else Ok(Num(U32Of(b.value)));
        case U64 =>
          var v := U64();
          r := if v.Err? then Err(v.error) else Ok(Big(v.value));
        case Bool =>
          var b := Take(1);
          r := if b.Err? then Err(b.error) else Ok(Flag(b.value[0] != 0));
        case Array(elem, len) => r := DecodeArray(elem, len);
        case Opt(inner) =>
          var tag := Take(1);
          if tag.Err? {
            r := Err(tag.error);
          } else if tag.value[0] == 0 {
            r := Ok(Null);
          } else if tag.value[0] == 1 {
            r := DecodeValue(inner);
          } else {
            r := Err(InvalidOptionTag(tag.value[0]));
          }
        case Defined(_) => r := Err(UnsupportedType);
      }
    }

    method DecodeArray(elem: IdlType, len: nat) returns (r: Result<Js, DecodeError>)
      requires Valid()
      modifies this
      ensures Valid()
      ensures match Parse(Array(elem, len), old(Rest()))
              case Ok((v, rest)) => r == Ok(v) && Rest() == rest
              case Err(e) => r == Err(e)
      decreases elem, 1
    {
      if elem.U8? {
        var b := Take(len);
        return if b.Err? then Err(b.error) else Ok(Bytes(b.value));
      }
      hide Parse, ParseMany;
      var out: seq<Js> := [];
      ArrayIsMany(elem, len, Rest());
      PrependOne(out, Null, ParseMany(elem, len, Rest()));
      for i := 0 to len
        invariant Valid()
        invariant ParseMany(elem, len, old(Rest())) == Prepend(out, ParseMany(elem, len - i, Rest()))
      {
        ManyStep(elem, len - i, Rest());
        var item := DecodeValue(elem);
        if item.Err? { return Err(item.error); }
        PrependOne(out, item.value, ParseMany(elem, len - i - 1, Rest()));
        out := out + [item.value];
      }
      NoneLeft(elem, Rest());
      assert out + [] == out;
      r := Ok(List(out));
    }
  }

  lemma ArrayIsMany(elem: IdlType, len: nat, b: seq<byte>)
    requires !elem.U8?
    ensures Parse(Array(elem, len), b)
            == match ParseMany(elem, len, b) case Ok((items, rest)) => Ok((List(items), rest)) case Err(e) => Err(e)
  {
  }

  lemma ManyStep(elem: IdlType, n: nat, b: seq<byte>)
    requires n > 0
    ensures ParseMany(elem, n, b)
            == match Parse(elem, b) case Ok((v, rest)) => Prepend([v], ParseMany(elem, n - 1, rest)) case Err(e) => Err(e)
  {
    hide Parse;
  }

  lemma NoneLeft(elem: IdlType, b: seq<byte>)
    ensures ParseMany(elem, 0, b) == Ok(([], b))
  {
  }

  function Prepend(done: seq<Js>, r: Read<seq<Js>>): Read<seq<Js>> {
    match r
    case Ok((items, rest)) => Ok((done + items, rest))
    case Err(e) => Err(e)
  }

  lemma PrependOne(done: seq<Js>, item: Js, r: Read<seq<Js>>)
    ensures Prepend(done, Prepend([item], r)) == Prepend(done + [item], r)
    ensures Prepend([], r) == r
  {
    if r.Ok? {
      var (items, rest) := r.value;
      assert done + ([item] + items) == done + [item] + items;
      assert [] + items == items;
    }
  }

  // ----- numbers -----

  lemma {:induction false} U64InvertsLittleEndian(n: nat, width: nat)
    requires n < Pow2(8 * width)
    ensures FromLittleEndian(LittleEndian(n, width)) == n
  {
    hide Or, Pow2;
    if width == 0 {
      Pow2Values();
    } else {
      PowSplits(8, 8 * (width - 1));
      Pow2Values();
      U64InvertsLittleEndian(n / 256, width - 1);
      OrDisjoint(n / 256, 8, n % 256);
    }
  }

  lemma {:induction false} LittleEndianInvertsU64(b: seq<byte>)
    ensures FromLittleEndian(b) < Pow2(8 * |b|) && LittleEndian(FromLittleEndian(b), |b|) == b
  {
    hide FromLittleEndian, Pow2;
    if b == [] {
      NoBytes();
      Pow2Values();
    } else {
      var low: nat, high := b[0], FromLittleEndian(b[1..]);
      LittleEndianInvertsU64(b[1..]);
      U64Step(b);
      DigitBound(high, low, |b| - 1);
      assert (high * 256 + low) % 256 == low && (high * 256 + low) / 256 == high;
      assert b == [b[0]] + b[1..];
    }
  }

  // One more byte in front.
  lemma DigitBound(high: nat, low: nat, width: nat)
    requires high < Pow2(8 * width) && low < 256
    ensures high * 256 + low < Pow2(8 * (width + 1))
  {
    hide Pow2;
    PowSplits(8, 8 * width);
    Pow2Values();
  }

  // The signed shifts and ors, read back as unsigned, are the little-endian number.
  lemma U32IsU64(b: seq<byte>)
    requires |b| == 4
    ensures U32Of(b) == FromLittleEndian(b) == b[0] as nat + b[1] as nat * 0x100 + b[2] as nat * 0x1_0000 + b[3] as nat * 0x100_0000
  {
    hide BitOr, ShiftLeft, ToInt32, ToUint32, FromLittleEndian;
    U64OfFour(b);
    var b0: nat, b1: nat, b2: nat, b3: nat := b[0], b[1], b[2], b[3];
    OrByte(b0, b1, 8, 0x100);
    var n1 := b1 * 0x100 + b0;
    SmallWord(n1);
    OrByte(n1, b2, 16, 0x1_0000);
    var n2 := b2 * 0x1_0000 + n1;
    SmallWord(n2);
    OrByte(n2, b3, 24, 0x100_0000);
    var n3 := b3 * 0x100_0000 + n2;
    WordOf(n3);
    LowWord(n3);
  }

  lemma OrByte(lo: nat, hi: nat, k: nat, p: nat)
    requires lo < p && ((k == 8 && p == 0x100) || (k == 16 && p == 0x1_0000) || (k == 24 && p == 0x100_0000))
    ensures BitOr(lo, ShiftLeft(hi, k)) == ToInt32(hi * p + lo)
  {
    hide BitOr, ShiftLeft, ToInt32, Pow2;
    Pow2Values();
    ShiftIn(hi, k, lo);
  }

  lemma U64OfFour(b: seq<byte>)
    requires |b| == 4
    ensures FromLittleEndian(b) == b[0] as nat + b[1] as nat * 0x100 + b[2] as nat * 0x1_0000 + b[3] as nat * 0x100_0000
  {
    hide FromLittleEndian;
    assert FromLittleEndian([]) == 0 by { NoBytes(); }
    U64Step(b);
    U64Step(b[1..]);
    U64Step(b[2..]);
    U64Step(b[3..]);
    assert b[1..][1..] == b[2..] && b[2..][1..] == b[3..] && b[3..][1..] == [];
  }

  lemma NoBytes()
    ensures FromLittleEndian([]) == 0
  {
  }

  lemma U64Step(b: seq<byte>)
    requires b != []
    ensures FromLittleEndian(b) == FromLittleEndian(b[1..]) * 256 + b[0] as nat
  {
    hide Or, Pow2;
    Pow2Values();
    OrDisjoint(FromLittleEndian(b[1..]), 8, b[0]);
  }

  // ----- round trip -----

  lemma SplitAt(x: seq<byte>, tail: seq<byte>, n: nat)
    requires n == |x|
    ensures Split(n, x + tail) == Ok((x, tail))
  {
    assert (x + tail)[..n] == x && (x + tail)[n..] == tail;
  }

  lemma {:induction false} ByteArrays(vs: seq<Value>)
    requires forall i :: 0 <= i < |vs| ==> vs[i].U8V?
    ensures EncodeAll(vs) == BytesOf(vs)
  {
    if vs != [] {
      ByteArrays(vs[1..]);
      assert BytesOf(vs) == [vs[0].byte] + BytesOf(vs[1..]);
    }
  }

  function AllToJs(vs: seq<Value>, elem: IdlType): (items: seq<Js>)
    requires forall i :: 0 <= i < |vs| ==> HasType(vs[i], elem)
  {
    seq(|vs|, i requires 0 <= i < |vs| => ToJs(vs[i], elem))
  }

  lemma ArrayToJs(vs: seq<Value>, elem: IdlType)
    requires !elem.U8? && forall i :: 0 <= i < |vs| ==> HasType(vs[i], elem)
    ensures ToJs(ArrayV(vs), Array(elem, |vs|)) == List(AllToJs(vs, elem))
  {
    assert ToJs(ArrayV(vs), Array(elem, |vs|)).items == AllToJs(vs, elem);
  }

  // Decoding a value's bytes, with anything behind them, gives the value and leaves the reader at the tail.
  lemma {:induction false} RoundTrip(v: Value, ty: IdlType, tail: seq<byte>)
    requires HasType(v, ty)
    ensures Parse(ty, Encode(v) + tail) == Ok((ToJs(v, ty), tail))
    decreases ty, 0
  {
    hide U32Of, FromLittleEndian, LittleEndian, Split, Pow2;
    match ty {
      case U8 => SplitAt([v.byte], tail, 1);
      case U32 =>
        var b := LittleEndian(v.n, 4);
        SplitAt(b, tail, 4);
        Pow2Values();
        U32IsU64(b);
        U64InvertsLittleEndian(v.n, 4);
      case U64 =>
        SplitAt(LittleEndian(v.n, 8), tail, 8);
        Pow2Values();
        PowSplits(32, 32);
        U64InvertsLittleEndian(v.n, 8);
      case Bool => SplitAt([if v.b then 1 else 0], tail, 1);
      case Array(elem, len) =>
        if elem.U8? {
          ByteArrays(v.elems);
          SplitAt(BytesOf(v.elems), tail, len);
        } else {
          ManyRoundTrip(v.elems, elem, tail);
          ArrayToJs(v.elems, elem);
        }
      case Opt(inner) =>
        if v.NoneV? {
          SplitAt([0], tail, 1);
        } else {
          var rest := Encode(v.inner) + tail;
          assert Encode(v) + tail == [1] + rest;
          SplitAt([1], rest, 1);
          RoundTrip(v.inner, inner, tail);
        }
      case _ =>
    }
  }

  lemma {:induction false} ManyRoundTrip(vs: seq<Value>, elem: IdlType, tail: seq<byte>)
    requires forall i :: 0 <= i < |vs| ==> HasType(vs[i], elem)
    ensures ParseMany(elem, |vs|, EncodeAll(vs) + tail) == Ok((AllToJs(vs, elem), tail))
    decreases elem, |vs| + 1
  {
    hide Parse, HasType, ToJs;
    if vs == [] {
      assert EncodeAll(vs) + tail == tail;
    } else {
      var rest := EncodeAll(vs[1..]) + tail;
      assert EncodeAll(vs) + tail == Encode(vs[0]) + rest;
      RoundTrip(vs[0], elem, rest);
      ManyRoundTrip(vs[1..], elem, tail);
      assert AllToJs(vs, elem) == [ToJs(vs[0], elem)] + AllToJs(vs[1..], elem);
    }
  }

  // ----- and back: outside booleans the decoder accepts nothing but encodings -----

  // The bytes that parsing reads as booleans.
  function BoolBytes(ty: IdlType, b: seq<byte>): seq<byte>
    decreases ty, 0
  {
    match ty
    case Bool => if b == [] then [] else [b[0]]
    case Array(elem, len) => BoolBytesOfMany(elem, len, b)
    case Opt(inner) => if b != [] && b[0] == 1 then BoolBytes(inner, b[1..]) else []
    case _ => []
  }

  function BoolBytesOfMany(elem: IdlType, n: nat, b: seq<byte>): seq<byte>
    decreases elem, n + 1
  {
    if n == 0 || Parse(elem, b).Err? then []
    else BoolBytes(elem, b) + BoolBytesOfMany(elem, n - 1, Parse(elem, b).value.1)
  }

  predicate Strict(bools: seq<byte>) {
    forall x :: x in bools ==> x <= 1
  }

  // The bytes start with this value's encoding, up to the spelling of its booleans.
  ghost predicate Spells(b: seq<byte>, v: Value, rest: seq<byte>, bools: seq<byte>) {
    && |Encode(v)| <= |b| && rest == b[|Encode(v)|..]
    && (b[..|Encode(v)|] == Encode(v) <==> Strict(bools))
  }

  ghost predicate SpellsAll(b: seq<byte>, vs: seq<Value>, rest: seq<byte>, bools: seq<byte>) {
    && |EncodeAll(vs)| <= |b| && rest == b[|EncodeAll(vs)|..]
    && (b[..|EncodeAll(vs)|] == EncodeAll(vs) <==> Strict(bools))
  }

  lemma NumberWasEncoded(ty: IdlType, b: seq<byte>) returns (v: Value)
    requires (ty.U8? || ty.U32? || ty.U64?) && Parse(ty, b).Ok?
    ensures HasType(v, ty) && Parse(ty, b).value.0 == ToJs(v, ty) && b == Encode(v) + Parse(ty, b).value.1
  {
    hide U32Of, FromLittleEndian, LittleEndian, Pow2;
    Pow2Values();
    PowSplits(32, 32);
    match ty {
      case U8 => v := U8V(b[0]);
      case U32 =>
        v := U32V(U32Of(b[..4]));
        U32IsU64(b[..4]);
        LittleEndianInvertsU64(b[..4]);
      case U64 =>
        v := U64V(FromLittleEndian(b[..8]));
        LittleEndianInvertsU64(b[..8]);
    }
  }

  // Whatever parses is some value of the type, read from as many bytes as its encoding has; and those bytes are
  // its encoding exactly if every boolean among them is spelled 0 or 1.
  lemma {:induction false} ParsedWasEncoded(ty: IdlType, b: seq<byte>) returns (v: Value)
    requires Parse(ty, b).Ok?
    ensures HasType(v, ty) && Parse(ty, b).value.0 == ToJs(v, ty)
    ensures Spells(b, v, Parse(ty, b).value.1, BoolBytes(ty, b))
    decreases ty, 0
  {
    hide U32Of, FromLittleEndian, LittleEndian, Pow2, BytesOf, EncodeAll, ParseMany, AllToJs, BoolBytesOfMany;
    match ty {
      case Bool =>
        v := BoolV(b[0] != 0);
        BoolSpelling(b);
      case Array(elem, len) =>
        if elem.U8? {
          v := ArrayV(ByteValues(b[..len]));
          NoBoolsInBytes(len, b);
          ExactSpelling(b, v, b[len..]);
        } else {
          ArrayIsMany(elem, len, b);
          var vs := ManyWereEncoded(elem, len, b);
          v := ArrayV(vs);
          ArrayToJs(vs, elem);
        }
      case Opt(inner) =>
        if b[0] == 0 {
          v := NoneV;
          ExactSpelling(b, v, b[1..]);
        } else {
          var w := ParsedWasEncoded(inner, b[1..]);
          v := SomeV(w);
          TagSpelling(b, w, Parse(inner, b[1..]).value.1, BoolBytes(inner, b[1..]));
        }
      case U8 => v := NumberWasEncoded(ty, b); ExactSpelling(b, v, Parse(ty, b).value.1);
      case U32 => v := NumberWasEncoded(ty, b); ExactSpelling(b, v, Parse(ty, b).value.1);
      case U64 => v := NumberWasEncoded(ty, b); ExactSpelling(b, v, Parse(ty, b).value.1);
    }
  }

  lemma ExactSpelling(b: seq<byte>, v: Value, rest: seq<byte>)
    requires b == Encode(v) + rest
    ensures Spells(b, v, rest, [])
  {
    hide Encode;
    assert b[..|Encode(v)|] == Encode(v);
  }

  lemma BoolSpelling(b: seq<byte>)
    requires b != []
    ensures Spells(b, BoolV(b[0] != 0), b[1..], [b[0]])
  {
    var e := Encode(BoolV(b[0] != 0));
    assert |e| == 1 && b[..1] == [b[0]] && e == [e[0]];
    assert b[..1] == e <==> b[..1][0] == e[0];
    assert Strict([b[0]]) <==> b[0] <= 1 by { assert b[0] in [b[0]]; }
  }

  lemma TagSpelling(b: seq<byte>, w: Value, rest: seq<byte>, bools: seq<byte>)
    requires b != [] && b[0] == 1 && Spells(b[1..], w, rest, bools)
    ensures Spells(b, SomeV(w), rest, bools)
  {
    var one: seq<byte>, f := [1], Encode(w);
    assert Encode(SomeV(w)) == one + f;
    assert b[..1] == one;
    hide Encode;
    SplitEquality(b, b[1..], one, f);
  }

  lemma {:induction false} NoBoolsInBytes(n: nat, b: seq<byte>)
    ensures BoolBytesOfMany(U8, n, b) == []
  {
    if n > 0 && Parse(U8, b).Ok? {
      NoBoolsInBytes(n - 1, Parse(U8, b).value.1);
    }
  }

  function ByteValues(b: seq<byte>): (vs: seq<Value>)
    ensures EncodeAll(vs) == b && BytesOf(vs) == b && |vs| == |b| && forall i :: 0 <= i < |b| ==> vs[i].U8V?
  {
    var vs := seq(|b|, i requires 0 <= i < |b| => U8V(b[i]));
    ByteArrays(vs);
    assert BytesOf(vs) == b;
    vs
  }

  lemma {:induction false} ManyWereEncoded(elem: IdlType, n: nat, b: seq<byte>) returns (vs: seq<Value>)
    requires ParseMany(elem, n, b).Ok?
    ensures |vs| == n && forall i :: 0 <= i < n ==> HasType(vs[i], elem)
    ensures ParseMany(elem, n, b).value.0 == AllToJs(vs, elem)
    ensures SpellsAll(b, vs, ParseMany(elem, n, b).value.1, BoolBytesOfMany(elem, n, b))
    decreases elem, n + 1
  {
    hide Parse, HasType, ToJs, Encode, BoolBytes, Spells, SpellsAll;
    if n == 0 {
      vs := [];
      NothingSpelled(b);
    } else {
      var v := ParsedWasEncoded(elem, b);
      var rest := Parse(elem, b).value.1;
      var others := ManyWereEncoded(elem, n - 1, rest);
      vs := [v] + others;
      assert AllToJs(vs, elem) == [ToJs(v, elem)] + AllToJs(others, elem);
      SpellingsConcatenate(b, v, rest, BoolBytes(elem, b), others, ParseMany(elem, n - 1, rest).value.1,
                           BoolBytesOfMany(elem, n - 1, rest));
    }
  }

  lemma NothingSpelled(b: seq<byte>)
    ensures SpellsAll(b, [], b, [])
  {
  }

  lemma SpellingsConcatenate(b: seq<byte>, v: Value, rest: seq<byte>, bools: seq<byte>, others: seq<Value>,
                             rest': seq<byte>, bools': seq<byte>)
    requires Spells(b, v, rest, bools) && SpellsAll(rest, others, rest', bools')
    ensures SpellsAll(b, [v] + others, rest', bools + bools')
  {
    hide Encode;
    var both := [v] + others;
    assert both[1..] == others && both[0] == v;
    var e, f := Encode(v), EncodeAll(others);
    assert EncodeAll(both) == e + f;
    SplitEquality(b, rest, e, f);
    StrictTogether(bools, bools');
  }

  lemma StrictTogether(p: seq<byte>, q: seq<byte>)
    ensures Strict(p + q) <==> Strict(p) && Strict(q)
  {
    assert forall x :: x in p + q <==> x in p || x in q;
  }

  lemma SplitEquality(b: seq<byte>, rest: seq<byte>, e: seq<byte>, f: seq<byte>)
    requires |e| <= |b| && rest == b[|e|..] && |f| <= |rest|
    ensures b[..|e + f|] == e + f <==> b[..|e|] == e && rest[..|f|] == f
    ensures rest[|f|..] == b[|e + f|..]
  {
    var n, k := |e|, |f|;
    assert b[..n + k][..n] == b[..n] && (e + f)[..n] == e;
    assert b[..n + k][n..] == rest[..k] && (e + f)[n..] == f;
    assert b[..n + k] == b[..n] + rest[..k];
  }

  // Any nonzero byte reads as true, so a boolean has 254 further accepted spellings.
  lemma BooleansAreLenient(x: byte)
    ensures Parse(Bool, [x]) == Ok((Flag(x != 0), []))
    ensures [x] == Encode(BoolV(x != 0)) <==> x <= 1
  {
    assert [x][1..] == [] && Encode(BoolV(x != 0))[0] == (if x != 0 then 1 else 0) && [x][0] == x;
    assert x <= 1 ==> [x] == Encode(BoolV(x != 0));
  }

  // ----- which values JavaScript can tell apart -----

  // An option stands directly under an option, somewhere a value can reach.
  predicate Collapses(ty: IdlType) {
    match ty
    case Array(elem, len) => len > 0 && Collapses(elem)
    case Opt(inner) => inner.Opt? || Collapses(inner)
    case _ => false
  }

  // JavaScript's null cannot tell a missing inner option from a missing outer one.
  lemma NestedOptionsCollapse(ty: IdlType)
    ensures ToJs(NoneV, Opt(Opt(ty))) == ToJs(SomeV(NoneV), Opt(Opt(ty)))
    ensures Encode(NoneV) != Encode(SomeV(NoneV))
  {
  }

  lemma {:induction false} Collision(ty: IdlType) returns (v: Value, w: Value)
    requires Collapses(ty)
    ensures HasType(v, ty) && HasType(w, ty) && v != w && ToJs(v, ty) == ToJs(w, ty)
  {
    match ty {
      case Array(elem, len) =>
        var x, y := Collision(elem);
        var xs := seq(len, _ => x);
        var ys := xs[0 := y];
        v, w := ArrayV(xs), ArrayV(ys);
        ArraysAlike(xs, ys, elem);
        assert xs[0] != ys[0];
      case Opt(inner) =>
        if inner.Opt? {
          v, w := NoneV, SomeV(NoneV);
        } else {
          var x, y := Collision(inner);
          v, w := SomeV(x), SomeV(y);
        }
    }
  }

  lemma ArraysAlike(xs: seq<Value>, ys: seq<Value>, elem: IdlType)
    requires |xs| == |ys| && !elem.U8?
    requires forall i :: 0 <= i < |xs| ==> HasType(xs[i], elem) && HasType(ys[i], elem) && ToJs(xs[i], elem) == ToJs(ys[i], elem)
    ensures ToJs(ArrayV(xs), Array(elem, |xs|)) == ToJs(ArrayV(ys), Array(elem, |ys|))
  {
    ArrayToJs(xs, elem);
    ArrayToJs(ys, elem);
    assert AllToJs(xs, elem) == AllToJs(ys, elem);
  }

  lemma {:induction false} Recovered(v: Value, w: Value, ty: IdlType)
    requires HasType(v, ty) && HasType(w, ty) && ToJs(v, ty) == ToJs(w, ty) && !Collapses(ty)
    ensures v == w
    decreases ty
  {
    match ty {
      case Array(elem, len) =>
        if elem.U8? {
          ByteArraysRecovered(v.elems, w.elems);
        } else {
          ArrayToJs(v.elems, elem);
          ArrayToJs(w.elems, elem);
          forall i | 0 <= i < len ensures v.elems[i] == w.elems[i] {
            assert AllToJs(v.elems, elem)[i] == AllToJs(w.elems, elem)[i];
            Recovered(v.elems[i], w.elems[i], elem);
          }
        }
      case Opt(inner) =>
        if v.SomeV? && w.SomeV? {
          Recovered(v.inner, w.inner, inner);
        }
      case _ =>
    }
  }

  lemma ByteArraysRecovered(vs: seq<Value>, ws: seq<Value>)
    requires (forall i :: 0 <= i < |vs| ==> vs[i].U8V?) && (forall i :: 0 <= i < |ws| ==> ws[i].U8V?)
    requires BytesOf(vs) == BytesOf(ws)
    ensures vs == ws
  {
    assert |vs| == |BytesOf(vs)| == |ws|;
    forall i | 0 <= i < |vs| ensures vs[i] == ws[i] {
      assert BytesOf(vs)[i] == BytesOf(ws)[i];
    }
  }

  ghost predicate Distinguishes(ty: IdlType) {
    forall v, w :: HasType(v, ty) && HasType(w, ty) && ToJs(v, ty) == ToJs(w, ty) ==> v == w
  }

  // Decoding tells the values of a type apart exactly if no option stands directly under an option.
  lemma DistinguishesIff(ty: IdlType)
    ensures Distinguishes(ty) <==> !Collapses(ty)
  {
    if Collapses(ty) {
      var v, w := Collision(ty);
    } else {
      forall v, w | HasType(v, ty) && HasType(w, ty) && ToJs(v, ty) == ToJs(w, ty) ensures v == w {
        Recovered(v, w, ty);
      }
    }
  }
}
