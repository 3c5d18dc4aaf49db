/** The wire format's hand-written base64, and that its decoder inverts its encoder. */
module Base64 {
  import opened LeanImt
  import opened Outcomes
  import opened JsBits
  import Modular

  type Sextet = v: nat | v < 64

  // The alphabet: A-Z, a-z, 0-9, '+' and '/'.
  function Symbol(v: Sextet): char {
    if v < 26 then ('A' as int + v) as char
    else if v < 52 then ('a' as int + v - 26) as char
    else if v < 62 then ('0' as int + v - 52) as char
    else if v == 62 then '+' else '/'
  }

  // Position by position it is the standard one (table 1 of RFC 4648).
  lemma SymbolsInOrder(v: Sextet)
    ensures v < 26 ==> Symbol(v) == "ABCDEFGHIJKLMNOPQRSTUVWXYZ"[v]
    ensures 26 <= v < 52 ==> Symbol(v) == "abcdefghijklmnopqrstuvwxyz"[v - 26]
    ensures 52 <= v < 62 ==> Symbol(v) == "0123456789"[v - 52]
    ensures 62 <= v ==> Symbol(v) == "+/"[v - 62]
  {
  }

  function IndexOf(ch: char): (i: int)
    ensures -1 <= i < 64
    ensures i >= 0 ==> Symbol(i) == ch
    ensures i == -1 ==> forall v: Sextet :: Symbol(v) != ch
  {
    IndexFrom(ch, 0)
  }

  function IndexFrom(ch: char, k: nat): (i: int)
    requires k <= 64
    ensures -1 <= i < 64
    ensures i >= 0 ==> k <= i && Symbol(i) == ch
    ensures i == -1 ==> forall v: Sextet :: k <= v ==> Symbol(v) != ch
    decreases 64 - k
  {
    if k == 64 then -1 else if Symbol(k) == ch then k else IndexFrom(ch, k + 1)
  }

  // ----- encoding -----

  // The byte's top six bits; its low two and the next one's high four; and so on.
  function First(b0: byte): int { ShiftRight(b0, 2) }
  function Second(b0: byte, b1: Option<byte>): int {
    BitOr(ShiftLeft(BitAnd(b0, 0x03), 4), if b1.None? then 0 else ShiftRight(b1.value, 4))
  }
  function Third(b1: byte, b2: Option<byte>): int {
    BitOr(ShiftLeft(BitAnd(b1, 0x0f), 2), if b2.None? then 0 else ShiftRight(b2.value, 6))
  }
  function Fourth(b2: byte): int { BitAnd(b2, 0x3f) }

  lemma SextetsOf(b0: byte, b1: Option<byte>, b2: Option<byte>)
    ensures First(b0) == b0 / 4
    ensures Second(b0, b1) == b0 % 4 * 16 + (if b1.None? then 0 else b1.value / 16)
    ensures b1.Some? ==> Third(b1.value, b2) == b1.value % 16 * 4 + (if b2.None? then 0 else b2.value / 64)
    ensures b2.Some? ==> Fourth(b2.value) == b2.value % 64
  {
    hide BitOr, BitAnd, ShiftLeft, ShiftRight;
    BitsOfByte(b0);
    Splice(b0 % 4, 4, if b1.None? then 0 else b1.value / 16);
    if b1.Some? {
      BitsOfByte(b1.value);
      Splice(b1.value % 16, 2, if b2.None? then 0 else b2.value / 64);
    }
    if b2.Some? {
      BitsOfByte(b2.value);
    }
  }

  lemma BitsOfByte(b: byte)
    ensures ShiftRight(b, 2) == b / 4 && ShiftRight(b, 4) == b / 16 && ShiftRight(b, 6) == b / 64
    ensures BitAnd(b, 0x03) == b % 4 && BitAnd(b, 0x0f) == b % 16 && BitAnd(b, 0x3f) == b % 64
  {
    hide BitAnd, Pow2;
    Pow2Values();
    MaskByte(b, 2);
    MaskByte(b, 4);
    MaskByte(b, 6);
  }

  lemma MaskByte(b: byte, k: nat)
    requires k <= 8
    ensures Pow2(k) <= 256 && BitAnd(b, Pow2(k) - 1) == b % Pow2(k)
  {
    hide And, Pow2, ToUint32, ToInt32;
    Pow2Values();
    PowSplits(k, 8 - k);
    AtLeastFactor(Pow2(k), Pow2(8 - k));
    LowWord(b);
    LowWord(Pow2(k) - 1);
    SmallWord(b % Pow2(k));
    AndMask(b, k);
  }

  lemma Splice(hi: nat, k: nat, lo: nat)
    requires (k == 2 && hi < 16 && lo < 4) || (k == 4 && hi < 4 && lo < 16)
    ensures BitOr(ShiftLeft(hi, k), lo) == hi * (if k == 2 then 4 else 16) + lo
  {
    hide Or, BitOr, ShiftLeft, Pow2;
    Pow2Values();
    ShiftIn(hi, k, lo);
  }

  // The four characters for one to three bytes.
  function Group(b0: byte, b1: Option<byte>, b2: Option<byte>): (s: string)
    requires b1.None? ==> b2.None?
    ensures |s| == 4
  {
    SextetsOf(b0, b1, b2);
    [Symbol(First(b0)),
     Symbol(Second(b0, b1)),
     if b1.None? then '=' else Symbol(Third(b1.value, b2)),
     if b2.None? then '=' else Symbol(Fourth(b2.value))]
  }

  function At(bytes: seq<byte>, i: nat): Option<byte> {
    if i < |bytes| then Some(bytes[i]) else None
  }

  function Encode(bytes: seq<byte>): string {
    if bytes == [] then ""
    else Group(bytes[0], At(bytes, 1), At(bytes, 2)) + (if |bytes| <= 3 then "" else Encode(bytes[3..]))
  }

  lemma EncodeFrom(bytes: seq<byte>, i: nat)
    requires i < |bytes|
    ensures Encode(bytes[i..]) == Group(bytes[i], At(bytes, i + 1), At(bytes, i + 2))
                                  + (if i + 3 < |bytes| then Encode(bytes[i + 3..]) else "")
  {
    hide Group;
    assert i + 3 < |bytes| ==> bytes[i..][3..] == bytes[i + 3..];
  }

  lemma NothingEncoded()
    ensures Encode([]) == ""
  {
  }

  method ToBase64(bytes: seq<byte>) returns (out: string)
    ensures out == Encode(bytes)
  {
    hide Group, Encode;
    out := "";
    NothingEncoded();
    var i := 0;
    while i < |bytes|
      invariant 0 <= i
      invariant out + (if i < |bytes| then Encode(bytes[i..]) else "") == Encode(bytes)
    {
      var b0 := bytes[i];
      var b1 := if i + 1 < |bytes| then Some(bytes[i + 1]) else None;
      var b2 := if i + 2 < |bytes| then Some(bytes[i + 2]) else None;
      EncodeFrom(bytes, i);
      out := out + Group(b0, b1, b2);
      i := i + 3;
    }
  }

  // ----- decoding -----

  function StripPadding(s: string): string {
    if s != "" && s[|s| - 1] == '=' then StripPadding(s[..|s| - 1]) else s
  }

  // The bytes still to come, given the accumulator and how many of its low bits are pending.
  function Collect(s: string, buffer: int, bits: nat): seq<byte>
    requires bits < 8
  {
    if s == "" then []
    else
      var val := IndexOf(s[0]);
      if val == -1 then Collect(s[1..], buffer, bits)
      else
        var buffer' := BitOr(ShiftLeft(buffer, 6), val);
        if bits + 6 < 8 then Collect(s[1..], buffer', bits + 6)
        else [PushedByte(buffer', bits - 2)] + Collect(s[1..], buffer', bits - 2)
  }

  function PushedByte(buffer: int, bits: nat): byte {
    LowByte(ShiftRight(buffer, bits));
    BitAnd(ShiftRight(buffer, bits), 0xff)
  }

  function Decode(b64: string): seq<byte> {
    Collect(StripPadding(b64), 0, 0)
  }

  method FromBase64(b64: string) returns (bytes: seq<byte>)
    ensures bytes == Decode(b64)
  {
    hide IndexOf, BitOr, ShiftLeft, PushedByte, StripPadding;
    var clean := StripPadding(b64);
    bytes := [];
    var buffer, bits := 0, 0;
    for i := 0 to |clean|
      invariant 0 <= bits < 8
      invariant bytes + Collect(clean[i..], buffer, bits) == Decode(b64)
    {
      assert clean[i..][0] == clean[i] && clean[i..][1..] == clean[i + 1..];
      var val := IndexOf(clean[i]);
      if val != -1 {
        buffer := BitOr(ShiftLeft(buffer, 6), val);
        bits := bits + 6;
        if bits >= 8 {
          bits := bits - 8;
          bytes := bytes + [PushedByte(buffer, bits)];
        }
      }
    }
  }

  // ----- round trip -----

  lemma AlphabetIsInjective(v: Sextet)
    ensures IndexOf(Symbol(v)) == v && Symbol(v) != '='
  {
    var i := IndexOf(Symbol(v));
    assert Symbol(i) == Symbol(v);
  }

  // One character carrying sextet v. The accumulator is a wrapped x; what is pushed is read off x unwrapped.
  lemma CollectOne(v: Sextet, s: string, x: int, bits: nat)
    requires bits < 8 && bits % 2 == 0
    ensures var y := x * 64 + v;
      Collect([Symbol(v)] + s, ToInt32(x), bits)
      == if bits == 0 then Collect(s, ToInt32(y), 6)
         else [y / Pow2(bits - 2) % 256] + Collect(s, ToInt32(y), bits - 2)
  {
    hide BitOr, ShiftLeft, ShiftRight, BitAnd, Pow2, IndexOf, ToInt32, Symbol;
    AlphabetIsInjective(v);
    TakesIn(x, v);
    var y := x * 64 + v;
    if bits > 0 {
      PickByte(y, bits - 2);
    }
    assert ([Symbol(v)] + s)[1..] == s;
    assert ([Symbol(v)] + s)[0] == Symbol(v);
    if bits > 0 {
      assert Collect([Symbol(v)] + s, ToInt32(x), bits) == [PushedByte(ToInt32(y), bits - 2)] + Collect(s, ToInt32(y), bits - 2);
    }
  }

  lemma TakesIn(x: int, v: Sextet)
    ensures BitOr(ShiftLeft(ToInt32(x), 6), v) == ToInt32(x * 64 + v)
  {
    hide BitOr, ShiftLeft, Pow2;
    var w := ToInt32(x);
    Pow2Values();
    ShiftIn(w, 6, v);
    assert w * Pow2(6) == w * 64;
    Modular.CongOf(x * 64 + v, w * 64 + v, (x - w) / WORD * 64, WORD);
  }

  lemma GroupArithmetic(x: int, b0: byte, b1: byte, b2: byte)
    ensures var y1 := (x * 64 + b0 / 4) * 64 + (b0 % 4 * 16 + b1 / 16);
            var y2 := y1 * 64 + (b1 % 16 * 4 + b2 / 64);
            y1 / 16 % 256 == b0 && y2 / 4 % 256 == b1 && (y2 * 64 + b2 % 64) % 256 == b2
  {
    var y1 := (x * 64 + b0 / 4) * 64 + (b0 % 4 * 16 + b1 / 16);
    var y2 := y1 * 64 + (b1 % 16 * 4 + b2 / 64);
    var p: nat, q: nat, r: nat := b0, b1, b2;
    FirstByte(x, p, q);
    SecondByte(x * 256 + p, q, r);
    assert y2 == ((x * 256 + p) * 256 + q) * 4 + r / 64;
    LowByteOf(x, p);
    LowByteOf(x * 256 + p, q);
    LowByteOf((x * 256 + p) * 256 + q, r);
    assert y2 * 64 + r % 64 == ((x * 256 + p) * 256 + q) * 256 + r;
  }

  lemma FirstByte(x: int, p: nat, q: nat)
    requires q < 256
    ensures var y := (x * 64 + p / 4) * 64 + (p % 4 * 16 + q / 16);
            y == (x * 256 + p) * 16 + q / 16 && y / 16 == x * 256 + p
  {
  }

  lemma SecondByte(z: int, q: nat, r: nat)
    requires r < 256
    ensures var y := (z * 16 + q / 16) * 64 + (q % 16 * 4 + r / 64);
            y == (z * 256 + q) * 4 + r / 64 && y / 4 == z * 256 + q
  {
  }

  lemma LowByteOf(z: int, p: nat)
    requires p < 256
    ensures (z * 256 + p) % 256 == p
  {
  }

  // The sextets of a group, appended to any accumulator, give back the bytes of the group.
  lemma CollectGroup(b0: byte, b1: byte, b2: byte, s: string, x: int)
    ensures exists y: int {:trigger ToInt32(y)} ::
      Collect(Group(b0, Some(b1), Some(b2)) + s, ToInt32(x), 0) == [b0, b1, b2] + Collect(s, ToInt32(y), 0)
  {
    hide Collect, ToInt32, Pow2, First, Second, Third, Fourth, Symbol;
    SextetsOf(b0, Some(b1), Some(b2));
    var v0, v1, v2, v3 := b0 / 4, b0 % 4 * 16 + b1 / 16, b1 % 16 * 4 + b2 / 64, b2 % 64;
    var c1, c2, c3 := [Symbol(v3)] + s, [Symbol(v2)] + ([Symbol(v3)] + s), [Symbol(v1)] + ([Symbol(v2)] + ([Symbol(v3)] + s));
    assert Group(b0, Some(b1), Some(b2)) + s == [Symbol(v0)] + c3;
    var y0 := x * 64 + v0;
    var y1 := y0 * 64 + v1;
    var y2 := y1 * 64 + v2;
    var y3 := y2 * 64 + v3;
    CollectOne(v0, c3, x, 0);
    CollectOne(v1, c2, y0, 6);
    CollectOne(v2, c1, y1, 4);
    CollectOne(v3, s, y2, 2);
    Pow2Values();
    GroupArithmetic(x, b0, b1, b2);
    var tail := Collect(s, ToInt32(y3), 0);
    assert [b0] + ([b1] + ([b2] + tail)) == [b0, b1, b2] + tail;
  }

  // The unpadded characters, and the padding.
  function Bare(bytes: seq<byte>): string {
    if bytes == [] then ""
    else
      var g := Group(bytes[0], At(bytes, 1), At(bytes, 2));
      if |bytes| == 1 then g[..2] else if |bytes| == 2 then g[..3] else g + Bare(bytes[3..])
  }

  function Padding(n: nat): string {
    if n % 3 == 0 then "" else if n % 3 == 1 then "==" else "="
  }

  lemma {:induction false} EncodeSplits(bytes: seq<byte>)
    ensures Encode(bytes) == Bare(bytes) + Padding(|bytes|)
    ensures bytes != [] ==> Bare(bytes) != "" && Bare(bytes)[|Bare(bytes)| - 1] != '='
  {
    hide IndexOf, First, Second, Third, Fourth, Symbol;
    if bytes != [] {
      var b1, b2 := At(bytes, 1), At(bytes, 2);
      SextetsOf(bytes[0], b1, b2);
      GroupHasNoPad(bytes[0], b1, b2);
      var g := Group(bytes[0], b1, b2);
      if |bytes| == 1 {
        assert g == g[..2] + "==";
      } else if |bytes| == 2 {
        assert g == g[..3] + "=";
      } else {
        EncodeSplits(bytes[3..]);
        assert (g + Bare(bytes[3..])) + Padding(|bytes|) == g + (Bare(bytes[3..]) + Padding(|bytes|));
      }
    }
  }

  lemma GroupHasNoPad(b0: byte, b1: Option<byte>, b2: Option<byte>)
    requires b1.None? ==> b2.None?
    ensures var g := Group(b0, b1, b2);
      g[1] != '=' && (b1.Some? ==> g[2] != '=') && (b1.None? ==> g[2..] == "==") && (b2.Some? ==> g[3] != '=') && (b2.None? ==> g[3] == '=')
  {
    hide IndexOf, First, Second, Third, Fourth, Symbol;
    SextetsOf(b0, b1, b2);
    AlphabetIsInjective(b0 % 4 * 16 + (if b1.None? then 0 else b1.value / 16));
    if b1.Some? { AlphabetIsInjective(b1.value % 16 * 4 + (if b2.None? then 0 else b2.value / 64)); }
    if b2.Some? { AlphabetIsInjective(b2.value % 64); }
  }

  lemma StripRemovesPadding(s: string, n: nat)
    requires s != "" ==> s[|s| - 1] != '='
    ensures StripPadding(s + Padding(n)) == s
  {
    hide StripPadding;
    StripOne(s);
    StripOne(s + "=");
    assert s + "" == s && s + "==" == (s + "=") + "=";
  }

  lemma StripOne(s: string)
    ensures StripPadding(s + "=") == StripPadding(s)
    ensures s == "" || s[|s| - 1] != '=' ==> StripPadding(s) == s
  {
    assert (s + "=")[..|s|] == s;
  }

  lemma {:induction false} CollectBare(bytes: seq<byte>, x: int)
    ensures Collect(Bare(bytes), ToInt32(x), 0) == bytes
  {
    hide Collect, ToInt32, Pow2, First, Second, Third, Fourth, Symbol, Group;
    if |bytes| == 0 {
      CollectNothing(x, 0);
    } else if |bytes| == 1 {
      CollectShort(bytes[0], None, x);
      assert bytes == [bytes[0]];
    } else if |bytes| == 2 {
      CollectShort(bytes[0], Some(bytes[1]), x);
      assert bytes == [bytes[0], bytes[1]];
    } else {
      var rest := bytes[3..];
      CollectGroup(bytes[0], bytes[1], bytes[2], Bare(rest), x);
      var y: int :| Collect(Group(bytes[0], Some(bytes[1]), Some(bytes[2])) + Bare(rest), ToInt32(x), 0)
                    == [bytes[0], bytes[1], bytes[2]] + Collect(Bare(rest), ToInt32(y), 0);
      CollectBare(rest, y);
      assert bytes == [bytes[0], bytes[1], bytes[2]] + rest;
    }
  }

  lemma CollectNothing(x: int, bits: nat)
    requires bits < 8
    ensures Collect("", ToInt32(x), bits) == []
  {
  }

  // A last group of one or two bytes: the left-over bits are dropped.
  lemma CollectShort(b0: byte, b1: Option<byte>, x: int)
    ensures Collect(Group(b0, b1, None)[..if b1.None? then 2 else 3], ToInt32(x), 0)
            == if b1.None? then [b0] else [b0, b1.value]
  {
    hide Collect, ToInt32, Pow2, First, Second, Third, Fourth, Symbol;
    SextetsOf(b0, b1, None);
    Pow2Values();
    var v0, v1 := b0 / 4, b0 % 4 * 16 + (if b1.None? then 0 else b1.value / 16);
    var y0 := x * 64 + v0;
    var y1 := y0 * 64 + v1;
    var g := Group(b0, b1, None);
    GroupArithmetic(x, b0, if b1.None? then 0 else b1.value, 0);
    if b1.None? {
      assert g[..2] == [Symbol(v0)] + ([Symbol(v1)] + "");
      CollectOne(v0, [Symbol(v1)] + "", x, 0);
      CollectOne(v1, "", y0, 6);
      CollectNothing(y1, 4);
    } else {
      var v2 := b1.value % 16 * 4;
      var y2 := y1 * 64 + v2;
      var c1, c2 := [Symbol(v2)] + "", [Symbol(v1)] + ([Symbol(v2)] + "");
      assert g[..3] == [Symbol(v0)] + c2;
      CollectOne(v0, c2, x, 0);
      CollectOne(v1, c1, y0, 6);
      CollectOne(v2, "", y1, 4);
      CollectNothing(y2, 2);
      assert [b0] + ([b1.value] + []) == [b0, b1.value];
    }
  }

  // Decoding inverts encoding, for byte strings of every length, although the accumulator is never masked
  // and overflows its 32 bits again and again.
  lemma RoundTrip(bytes: seq<byte>)
    ensures Decode(Encode(bytes)) == bytes
  {
    hide Collect, StripPadding, Bare, Encode;
    EncodeSplits(bytes);
    if bytes == [] {
      NothingIsBare();
    }
    StripRemovesPadding(Bare(bytes), |bytes|);
    CollectBare(bytes, 0);
  }

  lemma NothingIsBare()
    ensures Bare([]) == ""
  {
  }

  // ----- anything else is ignored -----

  predicate InAlphabet(ch: char) {
    'A' <= ch <= 'Z' || 'a' <= ch <= 'z' || '0' <= ch <= '9' || ch == '+' || ch == '/'
  }

  function OnlySymbols(s: string): string {
    if s == "" then "" else (if InAlphabet(s[0]) then [s[0]] else []) + OnlySymbols(s[1..])
  }

  lemma AlphabetIs(ch: char)
    ensures InAlphabet(ch) <==> IndexOf(ch) != -1
  {
    hide IndexFrom;
    if InAlphabet(ch) {
      var v: Sextet := if 'A' <= ch <= 'Z' then ch as int - 'A' as int
        else if 'a' <= ch <= 'z' then ch as int - 'a' as int + 26
        else if '0' <= ch <= '9' then ch as int - '0' as int + 52
        else if ch == '+' then 62 else 63;
      assert Symbol(v) == ch;
    }
  }

  lemma {:induction false} CollectSkips(s: string, buffer: int, bits: nat)
    requires bits < 8
    ensures Collect(s, buffer, bits) == Collect(OnlySymbols(s), buffer, bits)
  {
    hide IndexOf, BitOr, ShiftLeft, PushedByte, InAlphabet;
    if s != "" {
      AlphabetIs(s[0]);
      var buffer' := BitOr(ShiftLeft(buffer, 6), IndexOf(s[0]));
      var bits' := if !InAlphabet(s[0]) then bits else if bits + 6 < 8 then bits + 6 else bits - 2;
      CollectSkips(s[1..], if InAlphabet(s[0]) then buffer' else buffer, bits');
      assert InAlphabet(s[0]) ==> OnlySymbols(s)[0] == s[0] && OnlySymbols(s)[1..] == OnlySymbols(s[1..]);
      assert !InAlphabet(s[0]) ==> OnlySymbols(s) == OnlySymbols(s[1..]);
    }
  }

  lemma {:induction false} OnlySymbolsSnoc(s: string, ch: char)
    ensures OnlySymbols(s + [ch]) == OnlySymbols(s) + if InAlphabet(ch) then [ch] else []
  {
    hide InAlphabet;
    if s == "" {
      assert [ch][1..] == "" && s + [ch] == [ch];
    } else {
      assert (s + [ch])[1..] == s[1..] + [ch];
      OnlySymbolsSnoc(s[1..], ch);
    }
  }

  lemma {:induction false} PaddingIsJunk(s: string)
    ensures OnlySymbols(StripPadding(s)) == OnlySymbols(s)
  {
    hide OnlySymbols;
    if s != "" && s[|s| - 1] == '=' {
      PaddingIsJunk(s[..|s| - 1]);
      OnlySymbolsSnoc(s[..|s| - 1], '=');
      assert s[..|s| - 1] + ['='] == s;
    }
  }

  // Texts with the same letters, digits, plus signs and slashes in the same order decode alike.
  lemma JunkIsIgnored(a: string, b: string)
    requires OnlySymbols(a) == OnlySymbols(b)
    ensures Decode(a) == Decode(b)
  {
    hide Collect, OnlySymbols;
    CollectSkips(StripPadding(a), 0, 0);
    CollectSkips(StripPadding(b), 0, 0);
    PaddingIsJunk(a);
    PaddingIsJunk(b);
  }
}
