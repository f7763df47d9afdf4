/**
 Known values: the check value of the checksum, and the crc_extra of a message of the generated dialect.
 */
module KnownSums {
  import opened Bytes
  import opened Crc
  import opened Layout
  import Schema

  lemma Next(r: bv16, c: byte, r': bv16, rest: bytes)
    requires Step(r, Bits(c)) == r'
    ensures Accumulate(r, [c] + rest) == Accumulate(r', rest)
    ensures rest == [] ==> Accumulate(r, [c]) == r'
  {
    assert ([c] + rest)[1..] == rest && [c] + [] == [c];
  }

  lemma Three(r: bv16, a: byte, b: byte, c: byte, r1: bv16, r2: bv16, r3: bv16)
    requires Step(r, Bits(a)) == r1 && Step(r1, Bits(b)) == r2 && Step(r2, Bits(c)) == r3
    ensures Accumulate(r, [a, b, c]) == r3
  {
    assert [a] + [b, c] == [a, b, c] && [b] + [c] == [b, c];
    Next(r, a, r1, [b, c]);
    Next(r1, b, r2, [c]);
    Next(r2, c, r3, []);
  }

  lemma Joined(r: bv16, a: bytes, b: bytes, r1: bv16, r2: bv16)
    requires Accumulate(r, a) == r1 && Accumulate(r1, b) == r2
    ensures Accumulate(r, a + b) == r2
  {
    Chains(r, a, b);
  }

  // ----- The check value

  lemma DigitParts()
    ensures Accumulate(INIT, [49, 50, 51]) == 0x634B
    ensures Accumulate(0x634B, [52, 53, 54]) == 0x198D
    ensures Accumulate(0x198D, [55, 56, 57]) == 0x6F91
  {
    Three(0xFFFF, 49, 50, 51, 0x2F8D, 0x4D53, 0x634B);
    Three(0x634B, 52, 53, 54, 0x8B13, 0x44BF, 0x198D);
    Three(0x198D, 55, 56, 57, 0x1AC8, 0xF795, 0x6F91);
  }

  /** The checksum of nothing, and of the nine digits by which checksums of this kind are told apart. */
  lemma CheckValues()
    ensures Checksum([]) == 0xFFFF && Checksum(Ascii("123456789")) == 0x6F91
  {
    var a: bytes, b: bytes, c: bytes := [49, 50, 51], [52, 53, 54], [55, 56, 57];
    DigitParts();
    Joined(INIT, a, b, 0x634B, 0x198D);
    Joined(INIT, a + b, c, 0x198D, 0x6F91);
    DigitText(a, b, c);
  }

  lemma DigitText(a: bytes, b: bytes, c: bytes)
    requires a == [49, 50, 51] && b == [52, 53, 54] && c == [55, 56, 57]
    ensures Ascii("123456789") == a + b + c
  {
  }

  // ----- A schema checksum

  /** AUTH_KEY of the generated dialect. */
  function AuthKey(): MsgDef { MsgDef(7, "AUTH_KEY", [Field("key", Char, 32)], None) }

  lemma AuthKeyIsFed()
    ensures SchemaBytes(AuthKey()) == Ascii("AUTH_KEY char key ") + [32]
  {
    var def, f := AuthKey(), Field("key", Char, 32);
    assert def.fields[..1] == [f] && [f][1..] == [];
    assert SortBySize([f]) == [f];
    assert FieldsBytes([f]) == FieldBytes(f) + [];
    Schema.AsciiJoins("AUTH_KEY ", "char ");
    Schema.AsciiJoins("AUTH_KEY char ", "key ");
  }

  lemma AuthKeyPart1()
    ensures Accumulate(0xFFFF, [65, 85, 84, 72, 95, 75]) == 0x961A
  {
    var a: bytes, b: bytes := [65, 85, 84], [72, 95, 75];
    Three(0xFFFF, 65, 85, 84, 0x5C0A, 0xAA2E, 0xDC77);
    Three(0xDC77, 72, 95, 75, 0xC9A8, 0x83F9, 0x961A);
    Joined(0xFFFF, a, b, 0xDC77, 0x961A);
    assert a + b == [65, 85, 84, 72, 95, 75];
  }

  lemma AuthKeyPart2()
    ensures Accumulate(0x961A, [69, 89, 32, 99, 104, 97]) == 0xE003
  {
    var a: bytes, b: bytes := [69, 89, 32], [99, 104, 97];
    Three(0x961A, 69, 89, 32, 0xAAE4, 0x6EC4, 0xA144);
    Three(0xA144, 99, 104, 97, 0x551C, 0x35F6, 0xE003);
    Joined(0x961A, a, b, 0xA144, 0xE003);
    assert a + b == [69, 89, 32, 99, 104, 97];
  }

  lemma AuthKeyPart3()
    ensures Accumulate(0xE003, [114, 32, 107, 101, 121, 32]) == 0xE982
  {
    var a: bytes, b: bytes := [114, 32, 107], [101, 121, 32];
    Three(0xE003, 114, 32, 107, 0x62EE, 0x2F10, 0xCD7B);
    Three(0xCD7B, 101, 121, 32, 0xF932, 0xFC2E, 0xE982);
    Joined(0xE003, a, b, 0xCD7B, 0xE982);
    assert a + b == [114, 32, 107, 101, 121, 32];
  }

  lemma AuthKeySum()
    ensures Accumulate(INIT, Ascii("AUTH_KEY char key ") + [32]) == 0x86F1
  {
    var a: bytes, b: bytes := [65, 85, 84, 72, 95, 75], [69, 89, 32, 99, 104, 97];
    var c: bytes := [114, 32, 107, 101, 121, 32];
    AuthKeyPart1();
    AuthKeyPart2();
    AuthKeyPart3();
    Joined(INIT, a, b, 0x961A, 0xE003);
    Joined(INIT, a + b, c, 0xE003, 0xE982);
    Next(0xE982, 32, 0x86F1, []);
    Joined(INIT, a + b + c, [32], 0xE982, 0x86F1);
    AuthKeyText(a, b, c);
  }

  lemma AuthKeyText(a: bytes, b: bytes, c: bytes)
    requires a == [65, 85, 84, 72, 95, 75] && b == [69, 89, 32, 99, 104, 97] && c == [114, 32, 107, 101, 121, 32]
    ensures Ascii("AUTH_KEY char key ") == a + b + c
  {
    assert Ascii("AUTH_K") == a && Ascii("EY cha") == b && Ascii("r key ") == c;
    assert "AUTH_KEY char key " == "AUTH_K" + "EY cha" + "r key ";
  }

  /** Its crc_extra is the one in the generated code. */
  lemma AuthKeyExtra()
    ensures CrcExtra(AuthKey()) == 119
  {
    AuthKeyIsFed();
    AuthKeySum();
    assert FoldHalves(0x86F1) == 119;
  }
}
