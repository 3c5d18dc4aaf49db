/** The bytes of the pool's events, written out, and which lines the decoder takes for one. */
module EventBytes {
  import opened Hashing
  import opened LeanImt
  import opened Outcomes
  import opened JsBits
  import opened Borsh
  import opened EventDecoder
  import PoolSpec
  import LogScope
  import Base64

  // ----- tags -----

  lemma Utf8Appends(a: string, b: string)
    ensures Utf8(a) + Utf8(b) == Utf8(a + b)
  {
  }

  // A tag is the prefix and the event's name.
  lemma TagsSpelled(e: PoolSpec.Event)
    ensures Tokens(e)[0] == Utf8("kakure:" + match e
      case NoteInserted(_, _, _, _, _, _, _) => "NoteInserted"
      case NullifierSpentEvent(_) => "NullifierSpent"
      case ComplianceKeyRotated(_, _, _, _) => "ComplianceKeyRotated")
  {
    hide Utf8, ValuesOf;
    Utf8Appends("kakure:", "NoteInserted");
    Utf8Appends("kakure:", "NullifierSpent");
    Utf8Appends("kakure:", "ComplianceKeyRotated");
  }

  lemma {:induction false} FoundTypeIsThere(types: seq<TypeDef>, name: Text)
    requires FindType(types, name).Some?
    ensures exists i :: 0 <= i < |types| && types[i].name == name
  {
    if types[0].name != name {
      FoundTypeIsThere(types[1..], name);
      var i :| 0 <= i < |types[1..]| && types[1..][i].name == name;
      assert types[i + 1].name == name;
    }
  }

  // Only data lines whose first word is one of the three tags decode; everything else is skipped.
  lemma OnlyTaggedLinesDecode(line: string)
    requires var r := DecodeDataLine(POOL_IDL, line); r.Some? && r.value.Ok?
    ensures "Program data: " <= line && |TokensIn(line)| >= 2
    ensures var tag := TokensIn(line)[0];
      || tag == Utf8("kakure:" + "NoteInserted") || tag == Utf8("kakure:" + "NullifierSpent")
      || tag == Utf8("kakure:" + "ComplianceKeyRotated")
  {
    hide Utf8, TokensIn, ParseFields, NOTE_FIELDS, NULLIFIER_FIELDS, KEY_FIELDS;
    var tag := TokensIn(line)[0];
    var name := tag[|TAG_PREFIX|..];
    FoundTypeIsThere(POOL_IDL, name);
    assert tag == TAG_PREFIX + name;
    Utf8Appends("kakure:", "NoteInserted");
    Utf8Appends("kakure:", "NullifierSpent");
    Utf8Appends("kakure:", "ComplianceKeyRotated");
  }

  // ----- bodies -----

  // An absent option is a zero byte; a present one a one byte and its word.
  function OptionBytes(x: Option<Fr>): seq<byte> {
    match x case None => [0] case Some(n) => [1] + Word32(n)
  }

  function WordsOf(ct: seq<Fr>): seq<byte> {
    if ct == [] then [] else Word32(ct[0]) + WordsOf(ct[1..])
  }

  lemma WordBytes(n: nat)
    ensures Encode(Value32(n)) == Word32(n)
  {
  }

  lemma OptionEncodes(x: Option<Fr>)
    ensures Encode(OptionValue(x)) == OptionBytes(x)
  {
    hide Value32, Word32;
    if x.Some? { WordBytes(x.value); }
  }

  lemma {:induction false} ManyWords(vs: seq<Value>, ct: seq<Fr>)
    requires |vs| == |ct| && forall i :: 0 <= i < |ct| ==> vs[i] == Value32(ct[i])
    ensures EncodeAll(vs) == WordsOf(ct)
  {
    hide Value32, Word32;
    if ct != [] {
      WordBytes(ct[0]);
      ManyWords(vs[1..], ct[1..]);
    }
  }

  lemma EncodeCons(v: Value, vs: seq<Value>)
    ensures EncodeAll([v] + vs) == Encode(v) + EncodeAll(vs)
    ensures EncodeAll([]) == []
  {
    assert ([v] + vs)[1..] == vs;
  }

  // The fields follow each other without gaps, integers with the low byte first and words with the high byte first.
  lemma BodyLayout(e: PoolSpec.Event)
    ensures Tokens(e)[1] == match e
      case NoteInserted(leafIndex, leaf, eph, tag, wrap, ct, root) =>
        LittleEndian(leafIndex, 8) + (Word32(leaf) + (Word32(eph) + (OptionBytes(tag) + (OptionBytes(wrap) + (WordsOf(ct) + Word32(root))))))
      case NullifierSpentEvent(nullifier) => Word32(nullifier)
      case ComplianceKeyRotated(oldVersion, newVersion, x, y) =>
        LittleEndian(oldVersion, 4) + (LittleEndian(newVersion, 4) + (Word32(x) + Word32(y)))
  {
    hide Value32, Word32, OptionValue, OptionBytes, WordsOf, EncodeAll, LittleEndian, NameOf;
    var vs := ValuesOf(e);
    match e {
      case NoteInserted(_, leaf, eph, tag, wrap, ct, root) =>
        assert vs == [vs[0]] + ([vs[1]] + ([vs[2]] + ([vs[3]] + ([vs[4]] + ([vs[5]] + ([vs[6]] + []))))));
        EncodeCons(vs[0], [vs[1]] + ([vs[2]] + ([vs[3]] + ([vs[4]] + ([vs[5]] + ([vs[6]] + []))))));
        EncodeCons(vs[1], [vs[2]] + ([vs[3]] + ([vs[4]] + ([vs[5]] + ([vs[6]] + [])))));
        EncodeCons(vs[2], [vs[3]] + ([vs[4]] + ([vs[5]] + ([vs[6]] + []))));
        EncodeCons(vs[3], [vs[4]] + ([vs[5]] + ([vs[6]] + [])));
        EncodeCons(vs[4], [vs[5]] + ([vs[6]] + []));
        EncodeCons(vs[5], [vs[6]] + []);
        EncodeCons(vs[6], []);
        WordBytes(leaf);
        WordBytes(eph);
        OptionEncodes(tag);
        OptionEncodes(wrap);
        ManyWords(vs[5].elems, ct);
        WordBytes(root);
      case NullifierSpentEvent(nullifier) =>
        assert vs == [vs[0]] + [];
        EncodeCons(vs[0], []);
        WordBytes(nullifier);
      case ComplianceKeyRotated(_, _, x, y) =>
        assert vs == [vs[0]] + ([vs[1]] + ([vs[2]] + ([vs[3]] + [])));
        EncodeCons(vs[0], [vs[1]] + ([vs[2]] + ([vs[3]] + [])));
        EncodeCons(vs[1], [vs[2]] + ([vs[3]] + []));
        EncodeCons(vs[2], [vs[3]] + []);
        EncodeCons(vs[3], []);
        WordBytes(x);
        WordBytes(y);
    }
  }
}
