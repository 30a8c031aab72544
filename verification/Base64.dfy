/** Base64: the encoder, the simple decoder and the streaming decoder (base64.c:140-463); RFC 4648 section 4. */
module Base64 {
  import opened Bytes
  import opened Seqs

  type sextet = v: nat | v < 64

  /** The encoding alphabet. */
  function Char(v: sextet): byte {
    if v < 26 then 65 + v else if v < 52 then 71 + v else if v < 62 then v - 4 else if v == 62 then 43 else 47
  }

  const PAD: byte := 61

  /** from_base64_map: the value of a character, -2 for a space, -1 for any other one. */
  function MapOf(c: byte): (v: int)
    ensures -2 <= v < 64
  {
    if 65 <= c <= 90 then c - 65
    else if 97 <= c <= 122 then c - 71
    else if 48 <= c <= 57 then c + 4
    else if c == 43 then 62
    else if c == 47 then 63
    else if 9 <= c <= 13 || c == 32 || c == 160 then -2
    else -1
  }

  predicate IsSpace(c: byte) { MapOf(c) == -2 }

  predicate IsCode(c: byte) { MapOf(c) >= 0 }

  function Value(c: byte): sextet
    requires IsCode(c)
  {
    MapOf(c)
  }

  /** The alphabet and the map invert each other. */
  lemma CharsAndValues(v: sextet, c: byte)
    ensures IsCode(Char(v)) && Value(Char(v)) == v
    ensures IsCode(c) ==> Char(Value(c)) == c
    ensures IsCode(c) ==> c != PAD && !IsSpace(c)
  {
  }

  /** The alphabet is that of RFC 4648 table 1, and a space is one of ASCII or a no-break space. */
  lemma AlphabetIsRfc4648(v: sextet, c: byte)
    ensures v < 26 ==> Char(v) == 'A' as int + v
    ensures 26 <= v < 52 ==> Char(v) == 'a' as int + (v - 26)
    ensures 52 <= v < 62 ==> Char(v) == '0' as int + (v - 52)
    ensures Char(62) == '+' as int && Char(63) == '/' as int && PAD == '=' as int
    ensures IsSpace(c) <==> c == ' ' as int || 9 <= c <= 13 || c == 0xA0
  {
  }

  // ---------- The encoding ----------

  function Encode3(a: byte, b: byte, c: byte): seq<byte> {
    [Char(a / 4), Char(a % 4 * 16 + b / 16), Char(b % 16 * 4 + c / 64), Char(c % 64)]
  }

  /** RFC 4648 section 4: groups of three bytes, the last one padded. */
  function Encode(s: seq<byte>): seq<byte> {
    if s == [] then []
    else if |s| == 1 then Encode3(s[0], 0, 0)[..2] + [PAD, PAD]
    else if |s| == 2 then Encode3(s[0], s[1], 0)[..3] + [PAD]
    else Encode3(s[0], s[1], s[2]) + Encode(s[3..])
  }

  /** udm_base64_encode. */
  method EncodeBytes(src: seq<byte>) returns (store: seq<byte>)
    ensures store == Encode(src)
  {
    hide Encode3, Encode;
    store := [];
    var s: nat, length: nat := 0, |src|;
    assert src[0..] == src && [] + Encode(src) == Encode(src);
    while length > 2
      invariant s + length == |src| && store + Encode(src[s..]) == Encode(src)
    {
      EncodeStep(src[s..]);
      assert src[s..][3..] == src[s + 3..];
      Assoc(store, Encode3(src[s], src[s + 1], src[s + 2]), Encode(src[s + 3..]));
      store := WriteGroup(store, src[s], src[s + 1], src[s + 2]);
      length, s := length - 3, s + 3;
    }
    EncodeStep(src[s..]);
    if length > 0 {
      store := WriteTail(store, src, s);
    } else {
      assert store + [] == store;
    }
  }

  lemma EncodeStep(s: seq<byte>)
    ensures |s| > 2 ==> Encode(s) == Encode3(s[0], s[1], s[2]) + Encode(s[3..])
    ensures s == [] ==> Encode(s) == []
  {
  }

  method WriteGroup(store: seq<byte>, a: byte, b: byte, c: byte) returns (p: seq<byte>)
    ensures p == store + Encode3(a, b, c)
  {
    p := store + [Char(a / 4)];
    p := p + [Char(a % 4 * 16 + b / 16)];
    p := p + [Char(b % 16 * 4 + c / 64)];
    p := p + [Char(c % 64)];
  }

  method WriteTail(store: seq<byte>, src: seq<byte>, s: nat) returns (p: seq<byte>)
    requires s < |src| <= s + 2
    ensures p == store + Encode(src[s..])
  {
    p := store + [Char(src[s] / 4)];
    if |src| - s > 1 {
      p := p + [Char(src[s] % 4 * 16 + src[s + 1] / 16)];
      p := p + [Char(src[s + 1] % 16 * 4)];
      p := p + [PAD];
    } else {
      p := p + [Char(src[s] % 4 * 16)];
      p := p + [PAD];
      p := p + [PAD];
    }
  }

  // ---------- The reference decoder ----------

  datatype Result = Ok(bytes: seq<byte>) | Bad

  function Bits(v0: sextet, v1: sextet, v2: sextet, v3: sextet): nat { ((v0 * 64 + v1) * 64 + v2) * 64 + v3 }

  /** The three bytes of a group. */
  function Bytes3(bits: nat): seq<byte> { [bits / 65536 % 256, bits / 256 % 256, bits % 256] }

  /** Pads are only allowed as the last one or two characters of a group. */
  predicate IsGroup(q: seq<byte>) {
    |q| == 4 && IsCode(q[0]) && IsCode(q[1])
      && (if IsCode(q[2]) then IsCode(q[3]) || q[3] == PAD else q[2] == PAD && q[3] == PAD)
  }

  function Pads(q: seq<byte>): nat
    requires IsGroup(q)
  {
    if !IsCode(q[2]) then 2 else if !IsCode(q[3]) then 1 else 0
  }

  function ValueOr0(c: byte): sextet { if IsCode(c) then Value(c) else 0 }

  function GroupBits(q: seq<byte>): nat
    requires |q| == 4
  {
    Bits(ValueOr0(q[0]), ValueOr0(q[1]), ValueOr0(q[2]), ValueOr0(q[3]))
  }

  function GroupBytes(q: seq<byte>): (r: seq<byte>)
    requires IsGroup(q)
    ensures 1 <= |r| == 3 - Pads(q)
  {
    Bytes3(GroupBits(q))[..3 - Pads(q)]
  }

  /** The value of a text without spaces; padding ends it unless several chunks are allowed. */
  function Decode(t: seq<byte>, multi: bool): Result {
    if t == [] then Ok([])
    else if |t| < 4 || !IsGroup(t[..4]) then Bad
    else if Pads(t[..4]) > 0 && !multi && t[4..] != [] then Bad
    else
      match Decode(t[4..], multi)
      case Bad => Bad
      case Ok(rest) => Ok(GroupBytes(t[..4]) + rest)
  }

  function Strip(s: seq<byte>): seq<byte> {
    if s == [] then [] else if IsSpace(s[0]) then Strip(s[1..]) else [s[0]] + Strip(s[1..])
  }

  // ---------- The streaming decoder ----------

  class FromBase64 {
    const text: seq<byte>
    var src: nat
    var bits: nat
    var error: bool
    var byteCount: nat
    var markCount: nat

    ghost predicate Valid()
      reads this
    {
      src <= |text|
    }

    /** The characters that are still to be read. */
    ghost function Rest(): seq<byte>
      requires Valid()
      reads this
    {
      Strip(text[src..])
    }

    constructor (text: seq<byte>)
      ensures Valid() && this.text == text && src == 0 && bits == byteCount == markCount == 0 && !error
    {
      this.text := text;
      src, bits, error, byteCount, markCount := 0, 0, false, 0, 0;
    }

    /** udm_from_base64_skip_spaces. */
    method SkipSpaces() returns (end: bool)
      requires Valid()
      modifies `src, `error
      ensures Valid() && Rest() == old(Rest()) && (end <==> Rest() == [])
      ensures error == (old(error) || (end && byteCount > 0))
      ensures !end ==> src < |text| && Rest() == [text[src]] + Strip(text[src + 1..])
    {
      while src < |text|
        invariant Valid() && Rest() == old(Rest()) && error == old(error)
      {
        StripStep(text, src);
        if MapOf(text[src]) != -2 { return false; }
        src := src + 1;
      }
      if byteCount > 0 { error := true; }
      return true;
    }

    /** udm_from_base64_add. */
    method Add() returns (fail: bool)
      requires Valid() && src < |text|
      modifies `src, `bits, `error
      ensures Valid() && src == old(src) + 1 && fail == !IsCode(text[old(src)])
      ensures bits == old(bits) * 64 + ValueOr0(text[old(src)])
      ensures error == (old(error) || fail)
    {
      bits := bits * 64;
      var value := text[src];
      src := src + 1;
      if MapOf(value) < 0 {
        error := true;
        return true;
      }
      bits := bits + MapOf(value);
      return false;
    }

    /** What the next character must be. */
    ghost predicate Accepts(c: byte)
      reads this
    {
      if IsCode(c) then markCount == 0 else c == PAD && byteCount >= 2
    }

    /** udm_from_base64_getch. */
    method Getch() returns (fail: bool)
      requires Valid() && !error && byteCount < 4 && (markCount > 0 ==> byteCount == 3)
      modifies `src, `bits, `error, `byteCount, `markCount
      ensures Valid()
      ensures old(Rest()) == [] ==> Rest() == []
      ensures fail <==> old(Rest()) == [] || !old(Accepts(Rest()[0]))
      ensures error <==> fail && (old(Rest()) != [] || old(byteCount) > 0)
      ensures !fail ==>
                && Rest() == old(Rest())[1..] && byteCount == old(byteCount) + 1
                && bits == old(bits) * 64 + ValueOr0(old(Rest())[0])
                && markCount == old(markCount) + (if IsCode(old(Rest())[0]) then 0 else 1)
    {
      var atEnd := SkipSpaces();
      if atEnd { return true; }
      ghost var c, tail := text[src], Strip(text[src + 1..]);
      assert old(Rest()) == [c] + tail && old(Rest())[0] == c && old(Rest())[1..] == tail;
      var bad := Add();
      if !bad {
        if markCount > 0 {
          error := true;
          src := src - 1;
          return true;
        }
        byteCount := byteCount + 1;
        return false;
      }
      if byteCount < 2 {
        src := src - 1;
        return true;
      }
      if text[src - 1] == PAD {
        error := false;
        markCount := markCount + 1;
      } else {
        src := src - 1;
        return true;
      }
      byteCount := byteCount + 1;
      return false;
    }

    /** One pass of the decoder's scan: four characters, or none at the end of the text. */
    method Group() returns (fail: bool)
      requires Valid() && !error && markCount == 0
      modifies `src, `bits, `error, `byteCount, `markCount
      ensures Valid()
      ensures fail <==> |old(Rest())| < 4 || !IsGroup(old(Rest())[..4])
      ensures error <==> fail && old(Rest()) != []
      ensures fail && !error ==> Rest() == []
      ensures !fail ==>
                && Rest() == old(Rest())[4..] && bits == GroupBits(old(Rest())[..4])
                && markCount == Pads(old(Rest())[..4])
    {
      hide Strip, MapOf;
      bits, byteCount := 0, 0;
      ghost var r := Rest();
      fail := Getch();
      if fail { return; }
      fail := Getch();
      if fail { return; }
      fail := Getch();
      if fail { return; }
      fail := Getch();
    }
  }

  lemma StripStep(text: seq<byte>, i: nat)
    requires i < |text|
    ensures Strip(text[i..]) == if IsSpace(text[i]) then Strip(text[i + 1..]) else [text[i]] + Strip(text[i + 1..])
  {
    assert text[i..][1..] == text[i + 1..];
  }

  /** UdmBase64Decode: the bytes written, or none on an error. */
  method Base64Decode(src: seq<byte>, multi: bool) returns (r: Result)
    ensures r == Decode(Strip(src), multi)
  {
    hide Strip, GroupBits, IsGroup, Pads, Decode, Bytes3;
    var d := new FromBase64(src);
    var dst: seq<byte> := [];
    assert src[0..] == src;
    PrependNothing(Decode(Strip(src), multi));
    while true
      invariant fresh(d) && d.text == src && d.Valid() && !d.error && d.markCount == 0
      invariant Decode(Strip(src), multi) == Prepend(dst, Decode(d.Rest(), multi))
      decreases |d.Rest()|
    {
      ghost var t, before := d.Rest(), dst;
      DecodeStep(t, multi);
      var fail := d.Group();
      if fail { break; }
      dst := WriteBytes(dst, d.bits, d.markCount);
      PrependTwice(before, GroupBytes(t[..4]), Decode(t[4..], multi));
      if d.markCount > 0 {
        if !multi {
          DecodeNone(multi);
          assert Decode(Strip(src), multi) == if d.Rest() != [] then Bad else Ok(dst + []);
          break;
        }
        d.markCount := 0;
      }
    }
    d.byteCount := 0;
    var atEnd := d.SkipSpaces();
    if !atEnd { d.error := true; }
    assert dst + [] == dst;
    r := if d.error then Bad else Ok(dst);
  }

  lemma DecodeStep(t: seq<byte>, multi: bool)
    ensures t == [] ==> Decode(t, multi) == Ok([])
    ensures t != [] && (|t| < 4 || !IsGroup(t[..4])) ==> Decode(t, multi) == Bad
    ensures |t| >= 4 && IsGroup(t[..4]) ==>
              Pads(t[..4]) <= 2 &&
              Decode(t, multi) == (if Pads(t[..4]) > 0 && !multi && t[4..] != [] then Bad
                                   else Prepend(GroupBytes(t[..4]), Decode(t[4..], multi)))
  {
    hide IsGroup, GroupBytes;
  }

  lemma DecodeNone(multi: bool)
    ensures Decode([], multi) == Ok([])
  {
  }

  method WriteBytes(dst: seq<byte>, bits: nat, marks: nat) returns (r: seq<byte>)
    requires marks <= 2
    ensures r == dst + Bytes3(bits)[..3 - marks]
  {
    r := dst + [bits / 65536 % 256];
    r := r + [bits / 256 % 256];
    r := r + [bits % 256];
    if marks > 0 { r := r[..|r| - marks]; }
  }

  lemma PrependNothing(r: Result)
    ensures Prepend([], r) == r
  {
    if r.Ok? { assert [] + r.bytes == r.bytes; }
  }

  lemma PrependTwice(a: seq<byte>, b: seq<byte>, r: Result)
    ensures Prepend(a, Prepend(b, r)) == Prepend(a + b, r)
  {
    if r.Ok? { Assoc(a, b, r.bytes); }
  }

  function Prepend(a: seq<byte>, r: Result): Result { if r.Ok? then Ok(a + r.bytes) else Bad }

  // ---------- Round trips ----------

  lemma SplitBytes(a: byte, b: byte, c: byte)
    ensures Bytes3(Bits(a / 4, a % 4 * 16 + b / 16, b % 16 * 4 + c / 64, c % 64)) == [a, b, c]
  {
    var v := a * 65536 + b * 256 + c;
    BitsOf(a / 4, a % 4, b / 16, b % 16, c / 64, c % 64);
    assert Bits(a / 4, a % 4 * 16 + b / 16, b % 16 * 4 + c / 64, c % 64) == v;
    ThreeDigits(a, b, c);
  }

  lemma BitsOf(a1: sextet, a0: sextet, b1: sextet, b0: sextet, c1: sextet, c0: sextet)
    requires a0 < 4 && b1 < 16 && b0 < 16 && c1 < 4
    ensures Bits(a1, a0 * 16 + b1, b0 * 4 + c1, c0) == (a1 * 4 + a0) * 65536 + (b1 * 16 + b0) * 256 + (c1 * 64 + c0)
  {
  }

  lemma ThreeDigits(a: byte, b: byte, c: byte)
    ensures Bytes3(a * 65536 + b * 256 + c) == [a, b, c]
  {
    var v := a * 65536 + b * 256 + c;
    assert v / 65536 == a && v / 256 == a * 256 + b;
  }

  lemma CodeOfChar(v: sextet)
    ensures IsCode(Char(v)) && Value(Char(v)) == v && ValueOr0(Char(v)) == v && !IsSpace(Char(v)) && Char(v) != PAD
  {
  }

  /** A full group, and a group with its last characters replaced by pads. */
  lemma GroupOf(a: byte, b: byte, c: byte)
    ensures IsGroup(Encode3(a, b, c)) && Pads(Encode3(a, b, c)) == 0 && GroupBytes(Encode3(a, b, c)) == [a, b, c]
  {
    hide Char, MapOf, Bytes3, Bits;
    CodeOfChar(a / 4);
    CodeOfChar(a % 4 * 16 + b / 16);
    CodeOfChar(b % 16 * 4 + c / 64);
    CodeOfChar(c % 64);
    SplitBytes(a, b, c);
    assert [a, b, c][..3] == [a, b, c];
  }

  lemma PaddedGroups(a: byte, b: byte)
    ensures var q := Encode3(a, 0, 0)[..2] + [PAD, PAD];
            IsGroup(q) && Pads(q) == 2 && GroupBytes(q) == [a]
    ensures var q := Encode3(a, b, 0)[..3] + [PAD];
            IsGroup(q) && Pads(q) == 1 && GroupBytes(q) == [a, b]
  {
    hide Char, MapOf, Bytes3, Bits;
    PadIsNoCode();
    CodeOfChar(a / 4);
    CodeOfChar(a % 4 * 16 + 0 / 16);
    CodeOfChar(a % 4 * 16 + b / 16);
    CodeOfChar(b % 16 * 4 + 0 / 64);
    SplitBytes(a, 0, 0);
    SplitBytes(a, b, 0);
    assert [a, 0, 0][..1] == [a] && [a, b, 0][..2] == [a, b];
  }

  lemma PadIsNoCode()
    ensures !IsCode(PAD) && !IsSpace(PAD) && ValueOr0(PAD) == 0
  {
  }

  /** The four characters of a group stand for its 24 bits, six at a time, the highest first. */
  lemma GroupIsBigEndian(a: byte, b: byte, c: byte)
    ensures var q := Encode3(a, b, c);
            && (forall i :: 0 <= i < 4 ==> IsCode(q[i]))
            && Value(q[0]) * 262144 + Value(q[1]) * 4096 + Value(q[2]) * 64 + Value(q[3]) == a * 65536 + b * 256 + c
  {
    hide Char, MapOf;
    CodeOfChar(a / 4);
    CodeOfChar(a % 4 * 16 + b / 16);
    CodeOfChar(b % 16 * 4 + c / 64);
    CodeOfChar(c % 64);
    BitsOf(a / 4, a % 4, b / 16, b % 16, c / 64, c % 64);
  }

  /** A text of ASCII characters as bytes. */
  function Ascii(s: string): (r: seq<byte>)
    requires forall i :: 0 <= i < |s| ==> s[i] < 128 as char
  {
    seq(|s|, i requires 0 <= i < |s| => s[i] as int)
  }

  lemma OneOrTwo(s: seq<byte>)
    ensures |s| == 1 ==> Encode(s) == Encode3(s[0], 0, 0)[..2] + [PAD, PAD]
    ensures |s| == 2 ==> Encode(s) == Encode3(s[0], s[1], 0)[..3] + [PAD]
  {
  }

  /** The groups of the test vectors. */
  lemma VectorGroups()
    ensures Encode3(102, 111, 111) == [90, 109, 57, 118] && Encode3(98, 97, 114) == [89, 109, 70, 121]
    ensures Encode3(102, 0, 0)[..2] == [90, 103] && Encode3(102, 111, 0)[..3] == [90, 109, 56]
    ensures Encode3(98, 0, 0)[..2] == [89, 103] && Encode3(98, 97, 0)[..3] == [89, 109, 69]
  {
  }

  /** The test vectors of RFC 4648 section 10: f, fo, foo, foob, fooba and foobar. */
  lemma TestVectors()
    ensures Encode([102]) == Ascii("Zg==") && Encode([102, 111]) == Ascii("Zm8=")
    ensures Encode([102, 111, 111]) == Ascii("Zm9v") && Encode([102, 111, 111, 98]) == Ascii("Zm9vYg==")
    ensures Encode([102, 111, 111, 98, 97]) == Ascii("Zm9vYmE=")
    ensures Encode([102, 111, 111, 98, 97, 114]) == Ascii("Zm9vYmFy")
  {
    hide Encode, Encode3;
    VectorGroups();
    OneOrTwo([102]);
    OneOrTwo([102, 111]);
    OneOrTwo([98]);
    OneOrTwo([98, 97]);
    EncodeStep([]);
    EncodeStep([98, 97, 114]);
    EncodeStep([102, 111, 111]);
    EncodeStep([102, 111, 111, 98]);
    EncodeStep([102, 111, 111, 98, 97]);
    EncodeStep([102, 111, 111, 98, 97, 114]);
    assert [102, 111, 111, 98][3..] == [98] && [102, 111, 111, 98, 97][3..] == [98, 97];
    assert [102, 111, 111, 98, 97, 114][3..] == [98, 97, 114] && [102, 111, 111][3..] == [];
    assert [98, 97, 114][3..] == [];
    assert Encode([98, 97, 114]) == [89, 109, 70, 121];
  }

  /** The streaming decoder inverts the encoder, with one chunk or several allowed. */
  lemma {:induction false} DecodeInvertsEncode(s: seq<byte>, multi: bool)
    ensures Decode(Encode(s), multi) == Ok(s)
  {
    hide IsGroup, GroupBytes, Encode3, Pads;
    if s == [] {
    } else if |s| <= 2 {
      PaddedGroups(s[0], if |s| == 2 then s[1] else 0);
      var t := Encode(s);
      assert |t| == 4 && t[..4] == t && t[4..] == [] by { EncodeLength(s); }
      DecodeStep(t, multi);
      DecodeNone(multi);
      assert s + [] == s && s == (if |s| == 1 then [s[0]] else [s[0], s[1]]);
    } else {
      var q, t := Encode3(s[0], s[1], s[2]), Encode(s);
      GroupOf(s[0], s[1], s[2]);
      DecodeInvertsEncode(s[3..], multi);
      GroupLength(s[0], s[1], s[2]);
      assert t == q + Encode(s[3..]) && t[..4] == q && t[4..] == Encode(s[3..]);
      DecodeStep(t, multi);
      assert [s[0], s[1], s[2]] + s[3..] == s;
    }
  }

  lemma GroupLength(a: byte, b: byte, c: byte)
    ensures |Encode3(a, b, c)| == 4
  {
  }

  lemma {:induction false} EncodeLength(s: seq<byte>)
    ensures |Encode(s)| == (|s| + 2) / 3 * 4
  {
    if |s| > 2 { EncodeLength(s[3..]); }
  }

  /** Without spaces stripping changes nothing; encoded text has none. */
  lemma {:induction false} StripNothing(t: seq<byte>)
    requires forall i :: 0 <= i < |t| ==> !IsSpace(t[i])
    ensures Strip(t) == t
  {
    if t == [] {
    } else {
      StripNothing(t[1..]);
      assert t == [t[0]] + t[1..];
    }
  }

  lemma {:induction false} EncodedHasNoSpace(s: seq<byte>)
    ensures forall i :: 0 <= i < |Encode(s)| ==> !IsSpace(Encode(s)[i])
  {
    PadIsNoCode();
    assert forall v: sextet :: !IsSpace(Char(v));
    if |s| > 2 {
      EncodedHasNoSpace(s[3..]);
    }
  }

  lemma {:induction false} StripConcat(a: seq<byte>, b: seq<byte>)
    ensures Strip(a + b) == Strip(a) + Strip(b)
  {
    if a == [] {
      assert a + b == b;
    } else {
      StripConcat(a[1..], b);
      assert (a + b)[1..] == a[1..] + b;
      if !IsSpace(a[0]) { Assoc([a[0]], Strip(a[1..]), Strip(b)); }
    }
  }

  /** Several chunks one after another decode to the concatenation. */
  lemma {:induction false} ChunksConcat(a: seq<byte>, b: seq<byte>)
    requires Decode(a, true).Ok?
    ensures Decode(a + b, true) == Prepend(Decode(a, true).bytes, Decode(b, true))
  {
    hide Decode, IsGroup, Pads, GroupBytes;
    DecodeStep(a, true);
    if a == [] {
      assert a + b == b;
      PrependNothing(Decode(b, true));
    } else {
      var t := a + b;
      DecodeStep(t, true);
      ChunksConcat(a[4..], b);
      assert t[..4] == a[..4] && t[4..] == a[4..] + b;
      PrependTwice(GroupBytes(a[..4]), Decode(a[4..], true).bytes, Decode(b, true));
    }
  }

  /** Whatever spaces lie between them, two encoded chunks decode to both inputs. */
  lemma SpacedChunks(x: seq<byte>, y: seq<byte>, a: seq<byte>, b: seq<byte>)
    requires Strip(x) == Encode(a) && Strip(y) == Encode(b)
    ensures Decode(Strip(x + y), true) == Ok(a + b)
  {
    StripConcat(x, y);
    DecodeInvertsEncode(a, true);
    DecodeInvertsEncode(b, true);
    ChunksConcat(Encode(a), Encode(b));
  }

  // ---------- Which texts are accepted ----------

  /** RFC 4648 section 4 text: whole groups of the alphabet, at most two pads at the very end. */
  predicate WellFormed(t: seq<byte>) {
    && |t| % 4 == 0 && (forall i :: 0 <= i < |t| - 2 ==> IsCode(t[i]))
    && (t != [] ==>
          var x, y := t[|t| - 2], t[|t| - 1];
          if IsCode(x) then IsCode(y) || y == PAD else x == PAD && y == PAD)
  }

  lemma {:induction false} AcceptsWellFormed(t: seq<byte>)
    ensures Decode(t, false).Ok? <==> WellFormed(t)
  {
    if |t| >= 4 {
      PadIsNoCode();
      DecodeStep(t, false);
      AcceptsWellFormed(t[4..]);
      FirstGroup(t);
    }
  }

  lemma FirstGroup(t: seq<byte>)
    requires |t| >= 4
    ensures WellFormed(t) <==> IsGroup(t[..4]) && WellFormed(t[4..]) && (t[4..] != [] ==> Pads(t[..4]) == 0)
  {
    hide MapOf;
    PadIsNoCode();
    var q, r := t[..4], t[4..];
    forall i | 0 <= i < |r| ensures r[i] == t[i + 4] { }
    if r == [] {
      assert |t| == 4;
    } else {
      assert WellFormed(t) ==> |r| >= 4;
      assert WellFormed(r) ==> |r| >= 4;
    }
  }

  function GroupAt(t: seq<byte>, k: nat): seq<byte>
    requires 4 * k + 4 <= |t|
  {
    t[4 * k..4 * k + 4]
  }

  /** Whole groups, each of which may have pads. */
  predicate WholeGroups(t: seq<byte>) { |t| % 4 == 0 && forall k: nat :: k < |t| / 4 ==> IsGroup(GroupAt(t, k)) }

  /** Where several chunks are allowed, any text of whole groups is accepted and nothing else. */
  lemma {:induction false} AcceptsWholeGroups(t: seq<byte>)
    ensures Decode(t, true).Ok? <==> WholeGroups(t)
  {
    hide IsGroup, Pads, GroupBytes;
    DecodeStep(t, true);
    if |t| < 4 {
    } else {
      hide Decode;
      AcceptsWholeGroups(t[4..]);
      assert GroupAt(t, 0) == t[..4];
      forall k: nat | k < |t[4..]| / 4 ensures GroupAt(t[4..], k) == GroupAt(t, k + 1) { }
      if WholeGroups(t[4..]) && IsGroup(t[..4]) {
        forall k: nat | k < |t| / 4 ensures IsGroup(GroupAt(t, k)) {
          if k > 0 { assert GroupAt(t, k) == GroupAt(t[4..], k - 1); }
        }
      }
    }
  }

  // ---------- The simple decoder ----------

  /** What the simple decoder wrote, or a read behind the end of the text. */
  datatype Simple = Written(bytes: seq<byte>) | PastEnd

  /**
   * udm_base64_decode on a text before its NUL character; a character that is not in the alphabet counts as zero. The
   * end of the text is looked for between groups only, so a length that counts a group more than the text has is read
   * to behind its end, unless the text is whole groups.
   */
  method SimpleDecode(src: seq<byte>, len: nat) returns (r: Simple)
    requires 0 !in src
    ensures r.PastEnd? <==> |src| % 4 != 0 && len / 4 > |src| / 4
    ensures r.Written? ==> r.bytes == AllBytes(src[..(if len <= |src| then len else |src|)])
  {
    hide Bytes3, GroupBits;
    var dst := [];
    var n := if len <= |src| then len else |src|;
    ghost var rest := src[..n];
    var s, left := 0, len;
    while s < |src| && left > 3
      invariant s + left == len && s <= n && s % 4 == 0 && rest == src[s..n]
          && dst + AllBytes(rest) == AllBytes(src[..n])
    {
      GroupsLeft(s, |src|, len);
      if s + 4 > |src| { return PastEnd; }
      assert rest[..4] == [src[s], src[s + 1], src[s + 2], src[s + 3]] && rest[4..] == src[s + 4..n];
      var bits := Bits(ValueOr0(src[s]), ValueOr0(src[s + 1]), ValueOr0(src[s + 2]), ValueOr0(src[s + 3]));
      SameGroup(rest[..4], bits);
      Assoc(dst, Bytes3(bits), AllBytes(rest[4..]));
      dst := WriteBytes(dst, bits, 0);
      WholeBytes(bits);
      rest := rest[4..];
      s, left := s + 4, left - 4;
    }
    GroupsLeft(s, |src|, len);
    assert dst + [] == dst;
    r := Written(dst);
  }

  /** In front of a group it is the last one of the text or of the length, or a group is left of both. */
  lemma GroupsLeft(s: nat, size: nat, len: nat)
    requires s % 4 == 0 && s <= size && s <= len
    ensures s < size < s + 4 && s + 4 <= len ==> size % 4 != 0 && len / 4 > size / 4
    ensures s == size || len < s + 4 ==> !(size % 4 != 0 && len / 4 > size / 4)
  {
  }

  lemma SameGroup(q: seq<byte>, bits: nat)
    requires |q| == 4 && bits == Bits(ValueOr0(q[0]), ValueOr0(q[1]), ValueOr0(q[2]), ValueOr0(q[3]))
    ensures GroupBits(q) == bits
  {
  }

  lemma WholeBytes(bits: nat)
    ensures Bytes3(bits)[..3] == Bytes3(bits)
  {
  }

  /** Three bytes for every four characters. */
  function AllBytes(t: seq<byte>): seq<byte> {
    if |t| < 4 then [] else Bytes3(GroupBits(t[..4])) + AllBytes(t[4..])
  }

  function Zeros(n: nat): seq<byte> { seq(n, _ => 0) }

  /** On encoded text the simple decoder returns the input and a zero byte for every pad. */
  lemma {:induction false} SimpleDecodeOfEncode(s: seq<byte>)
    ensures AllBytes(Encode(s)) == s + Zeros((3 - |s| % 3) % 3)
  {
    hide Bytes3, GroupBits, Encode3;
    if s == [] {
    } else if |s| <= 2 {
      var b := if |s| == 2 then s[1] else 0;
      PaddedBits(s[0], b);
      var t := Encode(s);
      EncodeLength(s);
      assert t[..4] == t && t[4..] == [];
      assert AllBytes(t) == Bytes3(GroupBits(t));
    } else {
      var q, t := Encode3(s[0], s[1], s[2]), Encode(s);
      FullBits(s[0], s[1], s[2]);
      GroupLength(s[0], s[1], s[2]);
      SimpleDecodeOfEncode(s[3..]);
      assert t == q + Encode(s[3..]) && t[..4] == q && t[4..] == Encode(s[3..]);
      assert [s[0], s[1], s[2]] + s[3..] == s;
      Assoc([s[0], s[1], s[2]], s[3..], Zeros((3 - |s| % 3) % 3));
    }
  }

  lemma FullBits(a: byte, b: byte, c: byte)
    ensures |Encode3(a, b, c)| == 4 && Bytes3(GroupBits(Encode3(a, b, c))) == [a, b, c]
  {
    hide Char, MapOf, Bytes3, Bits;
    CodeOfChar(a / 4);
    CodeOfChar(a % 4 * 16 + b / 16);
    CodeOfChar(b % 16 * 4 + c / 64);
    CodeOfChar(c % 64);
    SplitBytes(a, b, c);
  }

  lemma PaddedBits(a: byte, b: byte)
    ensures |Encode3(a, 0, 0)| == |Encode3(a, b, 0)| == 4
    ensures Bytes3(GroupBits(Encode3(a, 0, 0)[..2] + [PAD, PAD])) == [a, 0, 0]
    ensures Bytes3(GroupBits(Encode3(a, b, 0)[..3] + [PAD])) == [a, b, 0]
  {
    hide Char, MapOf, Bytes3, Bits;
    PadIsNoCode();
    CodeOfChar(a / 4);
    CodeOfChar(a % 4 * 16 + 0 / 16);
    CodeOfChar(a % 4 * 16 + b / 16);
    CodeOfChar(b % 16 * 4 + 0 / 64);
    SplitBytes(a, 0, 0);
    SplitBytes(a, b, 0);
  }
}
