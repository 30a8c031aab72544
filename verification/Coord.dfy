/** Little-endian integers as the record formats store them (udm_utils.h, dstr.c). */
module Bytes {
  type byte = x: int | 0 <= x < 256

  // The put functions truncate, as the casts to unsigned char do.

  function Int2(v: nat): (b: seq<byte>)
    ensures |b| == 2
  {
    [v % 256, v / 256 % 256]
  }

  function Int3(v: nat): (b: seq<byte>)
    ensures |b| == 3
  {
    [v % 256, v / 256 % 256, v / 0x10000 % 256]
  }

  function Int4(v: nat): (b: seq<byte>)
    ensures |b| == 4
  {
    [v % 256, v / 256 % 256, v / 0x10000 % 256, v / 0x100_0000 % 256]
  }

  function GetInt2(s: seq<byte>, i: nat): (v: nat)
    requires i + 2 <= |s|
    ensures v < 0x10000
  {
    var b0: int, b1: int := s[i], s[i + 1];
    b0 + 256 * b1
  }

  function GetInt3(s: seq<byte>, i: nat): (v: nat)
    requires i + 3 <= |s|
    ensures v < 0x100_0000
  {
    var b0: int, b1: int, b2: int := s[i], s[i + 1], s[i + 2];
    b0 + 256 * b1 + 0x10000 * b2
  }

  /** The value of four bytes as an unsigned number; urlid_t is signed, but url ids are positive. */
  function GetInt4(s: seq<byte>, i: nat): (v: nat)
    requires i + 4 <= |s|
    ensures v < 0x1_0000_0000
  {
    var b0: int, b1: int, b2: int, b3: int := s[i], s[i + 1], s[i + 2], s[i + 3];
    b0 + 256 * b1 + 0x10000 * b2 + 0x100_0000 * b3
  }

  lemma Digits256(v: nat)
    ensures v / 0x10000 == v / 256 / 256 && v / 0x100_0000 == v / 0x10000 / 256
    ensures v / 0x1_0000_0000 == v / 0x100_0000 / 256
  {
  }

  lemma Int2RoundTrip(v: nat, s: seq<byte>, i: nat)
    requires i <= |s| && Int2(v) <= s[i..]
    ensures i + 2 <= |s| && GetInt2(s, i) == v % 0x10000
  {
    Digits256(v);
    assert s[i] == s[i..][0] && s[i + 1] == s[i..][1];
  }

  lemma Int3RoundTrip(v: nat, s: seq<byte>, i: nat)
    requires i <= |s| && Int3(v) <= s[i..]
    ensures i + 3 <= |s| && GetInt3(s, i) == v % 0x100_0000
  {
    Digits256(v);
    assert s[i] == s[i..][0] && s[i + 1] == s[i..][1] && s[i + 2] == s[i..][2];
  }

  lemma Int4RoundTrip(v: nat, s: seq<byte>, i: nat)
    requires i <= |s| && Int4(v) <= s[i..]
    ensures i + 4 <= |s| && GetInt4(s, i) == v % 0x1_0000_0000
  {
    Digits256(v);
    assert s[i] == s[i..][0] && s[i + 1] == s[i..][1] && s[i + 2] == s[i..][2] && s[i + 3] == s[i..][3];
  }

  lemma Int4At(a: seq<byte>, v: nat, b: seq<byte>)
    requires v < 0x1_0000_0000
    ensures GetInt4(a + Int4(v) + b, |a|) == v
  {
    assert (a + Int4(v) + b)[|a|..] == Int4(v) + b;
    Int4RoundTrip(v, a + Int4(v) + b, |a|);
  }

  lemma Int2At(a: seq<byte>, v: nat, b: seq<byte>)
    requires v < 0x10000
    ensures GetInt2(a + Int2(v) + b, |a|) == v
  {
    assert (a + Int2(v) + b)[|a|..] == Int2(v) + b;
    Int2RoundTrip(v, a + Int2(v) + b, |a|);
  }
}

/**
 * The variable-length coordinate codec (dbmode-blob.c, udm_coord_*): the UTF-8 layout
 * of RFC 3629 section 3, widened to 21 bits.
 */
module Coord {
  import opened Bytes
  import opened Seqs

  const LIMIT := 0x20_0000

  type value = v: nat | v < LIMIT

  /** One code: the bit operations of udm_coord_put written as division and remainder by 64. */
  function Put(v: value): (b: seq<byte>)
    ensures 1 <= |b| <= 4
  {
    if v < 0x80 then [v]
    else if v < 0x800 then [0xC0 + v / 64, 0x80 + v % 64]
    else if v < 0x10000 then [0xE0 + v / 4096, 0x80 + v / 64 % 64, 0x80 + v % 64]
    else [0xF0 + v / 262144, 0x80 + v / 4096 % 64, 0x80 + v / 64 % 64, 0x80 + v % 64]
  }

  /** udm_coord_put with a buffer of `room` bytes: nothing is written when the code is too long or too large. */
  function TryPut(v: nat, room: nat): (b: seq<byte>)
    ensures v < LIMIT && room >= 4 ==> b == Put(v)
    ensures b == [] <==> v >= LIMIT || room < |Put(v)|
  {
    if v < LIMIT && |Put(v)| <= room then Put(v) else []
  }

  /** Bytes scanned and the value left in the caller's variable; 0 bytes is a failure. */
  datatype Scan = Scan(nbytes: nat, value: nat)

  predicate IsTail(b: byte) { 0x80 <= b < 0xC0 }

  function Join2(a: int, b: int): nat { a % 32 * 64 + b % 64 }

  function Join3(a: int, b: int, c: int): nat { a % 16 * 4096 + b % 64 * 64 + c % 64 }

  function Join4(a: int, b: int, c: int, d: int): nat { a % 8 * 262144 + b % 64 * 4096 + c % 64 * 64 + d % 64 }

  /** The part both getters share, once enough bytes are known to be there. */
  function Decode(stale: nat, s: seq<byte>, i: nat): (r: Scan)
    requires i < |s|
    requires 0xC2 <= s[i] < 0xF8 ==> i + (if s[i] < 0xE0 then 2 else if s[i] < 0xF0 then 3 else 4) <= |s|
  {
    var c := s[i];
    if c < 0x80 then Scan(1, c)
    else if c < 0xC2 then Scan(1, stale)      // UDM_ERROR is 1: one byte is skipped, the value is not set
    else if c < 0xE0 then
      if !IsTail(s[i + 1]) then Scan(0, stale)
      else Scan(2, Join2(c, s[i + 1]))
    else if c < 0xF0 then
      if !(IsTail(s[i + 1]) && IsTail(s[i + 2]) && (c >= 0xE1 || s[i + 1] >= 0xA0)) then Scan(0, stale)
      else Scan(3, Join3(c, s[i + 1], s[i + 2]))
    else if c < 0xF8 then
      if !(IsTail(s[i + 1]) && IsTail(s[i + 2]) && IsTail(s[i + 3]) && (c >= 0xF1 || s[i + 1] >= 0x90)) then
          Scan(0, stale)
      else Scan(4, Join4(c, s[i + 1], s[i + 2], s[i + 3]))
    else Scan(0, stale)
  }

  /** udm_coord_get on s[i..e]. */
  function Get(stale: nat, s: seq<byte>, i: nat, e: nat): (r: Scan)
    requires e <= |s|
  {
    if i >= e then Scan(0, stale)
    else if 0xC2 <= s[i] < 0xE0 && i + 2 > e then Scan(0, stale)
    else if 0xE0 <= s[i] < 0xF0 && i + 3 > e then Scan(0, stale)
    else if 0xF0 <= s[i] < 0xF8 && i + 4 > e then Scan(0, stale)
    else Decode(stale, s, i)
  }

  /** udm_coord_get_quick: no end check, the caller guarantees four readable bytes. */
  function GetQuick(stale: nat, s: seq<byte>, i: nat): (r: Scan)
    requires i + 4 <= |s|
  {
    Decode(stale, s, i)
  }

  /** Layout, shortest form, and no zero byte in the code of a non-zero value. */
  lemma PutIsRfc3629(v: value)
    ensures forall k :: 1 <= k < |Put(v)| ==> IsTail(Put(v)[k])
    ensures |Put(v)| == 1 ==> Put(v)[0] < 0x80
    ensures |Put(v)| == 2 ==> 0xC2 <= Put(v)[0] < 0xE0
    ensures |Put(v)| == 3 ==> 0xE0 <= Put(v)[0] < 0xF0 && (Put(v)[0] == 0xE0 ==> Put(v)[1] >= 0xA0)
    ensures |Put(v)| == 4 ==> 0xF0 <= Put(v)[0] < 0xF8 && (Put(v)[0] == 0xF0 ==> Put(v)[1] >= 0x90)
    ensures v != 0 ==> 0 !in Put(v)
  {
  }

  lemma LowBits(x: nat)
    ensures x < 64 ==> (0x80 + x) % 64 == x
    ensures x < 32 ==> (0xC0 + x) % 32 == x
    ensures x < 16 ==> (0xE0 + x) % 16 == x
    ensures x < 8 ==> (0xF0 + x) % 8 == x
  {
  }

  lemma DivDiv(v: nat)
    ensures v / 4096 == v / 64 / 64 && v / 262144 == v / 4096 / 64
  {
  }

  lemma JoinSplit2(v: nat)
    requires v < 0x800
    ensures Join2(0xC0 + v / 64, 0x80 + v % 64) == v
  {
    LowBits(v / 64);
    LowBits(v % 64);
  }

  lemma JoinSplit3(v: nat)
    requires v < 0x10000
    ensures Join3(0xE0 + v / 4096, 0x80 + v / 64 % 64, 0x80 + v % 64) == v
  {
    DivDiv(v);
    LowBits(v / 4096);
    LowBits(v / 64 % 64);
    LowBits(v % 64);
  }

  lemma JoinSplit4(v: nat)
    requires v < LIMIT
    ensures Join4(0xF0 + v / 262144, 0x80 + v / 4096 % 64, 0x80 + v / 64 % 64, 0x80 + v % 64) == v
  {
    DivDiv(v);
    LowBits(v / 262144);
    LowBits(v / 4096 % 64);
    LowBits(v / 64 % 64);
    LowBits(v % 64);
  }

  lemma JoinPut(v: value)
    requires 0x80 <= v
    ensures |Put(v)| == 2 ==> Join2(Put(v)[0], Put(v)[1]) == v
    ensures |Put(v)| == 3 ==> Join3(Put(v)[0], Put(v)[1], Put(v)[2]) == v
    ensures |Put(v)| == 4 ==> Join4(Put(v)[0], Put(v)[1], Put(v)[2], Put(v)[3]) == v
  {
    hide Join2, Join3, Join4;
    if v < 0x800 { JoinSplit2(v); }
    else if v < 0x10000 { JoinSplit3(v); }
    else { JoinSplit4(v); }
  }

  lemma DecodePut(stale: nat, v: value, s: seq<byte>, i: nat)
    requires i <= |s| && Put(v) <= s[i..]
    ensures i + |Put(v)| <= |s| && (s[i] < 0x80 <==> v < 0x80)
    ensures s[i] < 0x80 || 0xC2 <= s[i] < 0xF8
    ensures 0xC2 <= s[i] < 0xF8 ==> |Put(v)| == (if s[i] < 0xE0 then 2 else if s[i] < 0xF0 then 3 else 4)
    ensures Decode(stale, s, i) == Scan(|Put(v)|, v)
  {
    var b := Put(v);
    assert |b| <= |s[i..]|;
    assert forall k :: 0 <= k < |b| ==> s[i..][k] == b[k] && s[i + k] == b[k];
    PutIsRfc3629(v);
    assert s[i] == b[0];
    if v >= 0x80 { JoinPut(v); }
  }

  /** Get inverts Put wherever the code lies, and whatever follows it. */
  lemma GetPut(stale: nat, v: value, s: seq<byte>, i: nat, e: nat)
    requires i <= e <= |s| && Put(v) <= s[i..e]
    ensures Get(stale, s, i, e) == Scan(|Put(v)|, v) && i + |Put(v)| <= e
  {
    assert s[i..e] == s[i..][..e - i];
    DecodePut(stale, v, s, i);
  }

  /** Put inverts Get on every byte string: only the shortest code of a value is accepted. */
  lemma PutGet(stale: nat, s: seq<byte>, i: nat, e: nat)
    requires i < e <= |s| && Get(stale, s, i, e).nbytes > 0 && !(0x80 <= s[i] < 0xC2)
    ensures var r := Get(stale, s, i, e);
            r.value < LIMIT && i + r.nbytes <= e && s[i..i + r.nbytes] == Put(r.value)
  {
    var r := Get(stale, s, i, e);
    var c := s[i];
    if c < 0x80 {
    } else if c < 0xE0 {
      SplitJoin2(c, s[i + 1]);
    } else if c < 0xF0 {
      SplitJoin3(c, s[i + 1], s[i + 2]);
    } else {
      SplitJoin4(c, s[i + 1], s[i + 2], s[i + 3]);
    }
  }

  /** The bytes b are read, to their end, as the value v. */
  predicate IsCodeOf(b: seq<byte>, v: nat) {
    b != [] && !(0x80 <= b[0] < 0xC2) && Get(0, b, 0, |b|) == Scan(|b|, v)
  }

  /** What is written is read back, and nothing is written exactly when no code of v fits the room. */
  lemma TryPutIff(v: nat, room: nat)
    ensures TryPut(v, room) != [] ==> IsCodeOf(TryPut(v, room), v)
    ensures TryPut(v, room) != [] <==> exists b: seq<byte> :: |b| <= room && IsCodeOf(b, v)
  {
    hide Put, Get;
    var b := TryPut(v, room);
    if b != [] {
      PutIsRfc3629(v);
      GetPut(0, v, b, 0, |b|);
      assert b[0..|b|] == b && IsCodeOf(b, v);
    }
    if exists c: seq<byte> :: |c| <= room && IsCodeOf(c, v) {
      var c: seq<byte> :| |c| <= room && IsCodeOf(c, v);
      PutGet(0, c, 0, |c|);
      assert c[0..0 + |c|] == c;
    }
  }

  lemma SplitJoin2(a: byte, b: byte)
    requires 0xC2 <= a < 0xE0 && IsTail(b)
    ensures Join2(a, b) < LIMIT && Put(Join2(a, b)) == [a, b]
  {
  }

  lemma SplitJoin3(a: byte, b: byte, c: byte)
    requires 0xE0 <= a < 0xF0 && IsTail(b) && IsTail(c) && (a >= 0xE1 || b >= 0xA0)
    ensures Join3(a, b, c) < LIMIT && Put(Join3(a, b, c)) == [a, b, c]
  {
    Digits64(0, a % 16, b % 64, c % 64);
  }

  lemma SplitJoin4(a: byte, b: byte, c: byte, d: byte)
    requires 0xF0 <= a < 0xF8 && IsTail(b) && IsTail(c) && IsTail(d) && (a >= 0xF1 || b >= 0x90)
    ensures Join4(a, b, c, d) < LIMIT && Put(Join4(a, b, c, d)) == [a, b, c, d]
  {
    Digits64(a % 8, b % 64, c % 64, d % 64);
  }

  lemma Digits64(x: int, y: int, z: int, w: int)
    requires 0 <= x < 8 && 0 <= y < 64 && 0 <= z < 64 && 0 <= w < 64
    ensures var v := x * 262144 + y * 4096 + z * 64 + w;
            v / 262144 == x && v / 4096 % 64 == y && v / 64 % 64 == z && v % 64 == w
  {
    var v := x * 262144 + y * 4096 + z * 64 + w;
    assert v / 64 == (x * 64 + y) * 64 + z;
    assert v / 4096 == x * 64 + y;
  }

  /** Where four bytes are readable, the quick getter is the plain one. */
  lemma GetQuickIsGet(stale: nat, s: seq<byte>, i: nat, e: nat)
    requires i + 4 <= e <= |s|
    ensures GetQuick(stale, s, i) == Get(stale, s, i, e)
  {
  }

  /** A run of codes, as the packers append them. */
  function Codes(vs: seq<value>): (b: seq<byte>)
    ensures |vs| <= |b| <= 4 * |vs|
  {
    if vs == [] then [] else Put(vs[0]) + Codes(vs[1..])
  }

  function Sum(vs: seq<nat>): nat {
    if vs == [] then 0 else vs[0] + Sum(vs[1..])
  }

  lemma CodesStep(vs: seq<value>, s: seq<byte>, i: nat, e: nat)
    requires vs != [] && i <= e <= |s| && Codes(vs) <= s[i..e]
    ensures Put(vs[0]) <= s[i..e] && Put(vs[0]) <= s[i..]
    ensures i + |Put(vs[0])| <= e && Codes(vs[1..]) <= s[i + |Put(vs[0])|..e]
  {
    hide Put;
    PrefixSplit(Put(vs[0]), Codes(vs[1..]), s, i, e);
  }

  lemma {:induction false} CodesConcat(a: seq<value>, b: seq<value>)
    ensures Codes(a + b) == Codes(a) + Codes(b)
  {
    if a == [] {
      assert a + b == b;
    } else {
      hide Put;
      var c := a + b;
      assert c[0] == a[0] && c[1..] == a[1..] + b;
      CodesConcat(a[1..], b);
      calc {
        Codes(c);
        Put(a[0]) + Codes(a[1..] + b);
        Put(a[0]) + (Codes(a[1..]) + Codes(b));
        { Assoc(Put(a[0]), Codes(a[1..]), Codes(b)); }
        Codes(a) + Codes(b);
      }
    }
  }

  /** A concatenation of codes parses in exactly one way. */
  lemma {:induction false} CodesInjective(a: seq<value>, b: seq<value>)
    requires Codes(a) == Codes(b)
    ensures a == b
  {
    if a != [] && b != [] {
      var s := Codes(a);
      assert s[0..|s|] == s;
      CodesStep(a, s, 0, |s|);
      CodesStep(b, s, 0, |s|);
      GetPut(0, a[0], s, 0, |s|);
      GetPut(0, b[0], s, 0, |s|);
      assert Codes(a[1..]) == s[|Put(a[0])|..] == Codes(b[1..]);
      CodesInjective(a[1..], b[1..]);
    }
  }

  lemma {:induction false} CodesHaveNoZero(vs: seq<value>)
    requires 0 !in vs
    ensures 0 !in Codes(vs)
  {
    if vs == [] {
    } else {
      PutIsRfc3629(vs[0]);
      CodesHaveNoZero(vs[1..]);
    }
  }

  /** One scanned code: every getter finds the first value, and the rest follows it. */
  lemma ScanStep(stale: nat, vs: seq<value>, s: seq<byte>, p: nat, e: nat)
    requires vs != [] && p <= e <= |s| && Codes(vs) <= s[p..e]
    ensures var n := |Put(vs[0])|;
            && p + n <= e && Codes(vs[1..]) <= s[p + n..e] && |Codes(vs)| == n + |Codes(vs[1..])|
            && Get(stale, s, p, e) == Scan(n, vs[0])
            && (p + 4 <= e ==> GetQuick(stale, s, p) == Scan(n, vs[0]))
            && (s[p] < 128 ==> n == 1 && s[p] == vs[0])
            && (s[p] >= 128 ==> 0xC2 <= s[p] < 0xF8 && n == (if s[p] < 0xE0 then 2 else if s[p] < 0xF0 then 3 else 4))
            && Sum(vs) == vs[0] + Sum(vs[1..])
  {
    hide Put, Get;
    CodesStep(vs, s, p, e);
    DecodePut(stale, vs[0], s, p);
    GetPut(stale, vs[0], s, p, e);
  }

  /** The range-checked loop of udm_coord_sum (its label mb). */
  method CoordSumChecked(s: seq<byte>, i: nat, e: nat, n: nat, ghost vs: seq<value>) returns (sum: nat, p: nat)
    requires i <= e <= |s| && |vs| == n && Codes(vs) <= s[i..e]
    ensures sum == Sum(vs) && p == i + |Codes(vs)| && p <= e
  {
    hide Put, Get, Decode;
    ghost var rest := vs;
    var left := n;
    sum, p := 0, i;
    var tmp := 0;
    while left > 0
      invariant left == |rest| && i <= p <= e && Codes(rest) <= s[p..e]
      invariant p + |Codes(rest)| == i + |Codes(vs)| && sum + Sum(rest) == Sum(vs)
    {
      ScanStep(tmp, rest, s, p, e);
      var got := Get(tmp, s, p, e);
      if got.nbytes == 0 { return sum, e; }
      tmp := got.value;
      sum, p, left, rest := sum + tmp, p + got.nbytes, left - 1, rest[1..];
    }
  }

  /** udm_coord_sum: adds up n codes, without end checks when 4n bytes are there. */
  method CoordSum(s: seq<byte>, i: nat, e: nat, n: nat, ghost vs: seq<value>) returns (sum: nat, p: nat)
    requires i <= e <= |s| && |vs| == n && Codes(vs) <= s[i..e]
    ensures sum == Sum(vs) && p == i + |Codes(vs)| && p <= e
  {
    hide Put, Get, Decode, GetQuick;
    if i + n * 4 > e {
      sum, p := CoordSumChecked(s, i, e, n, vs);
      return;
    }
    ghost var rest := vs;
    var left := n;
    sum, p := 0, i;
    while left > 0 && s[p] < 128
      invariant left == |rest| && i <= p && p + left * 4 <= e && Codes(rest) <= s[p..e]
      invariant p + |Codes(rest)| == i + |Codes(vs)| && sum + Sum(rest) == Sum(vs)
      decreases left
    {
      ScanStep(0, rest, s, p, e);
      sum, p, left, rest := sum + s[p], p + 1, left - 1, rest[1..];
    }
    var tmp := 0;
    while left > 0
      invariant left == |rest| && i <= p && p + left * 4 <= e && Codes(rest) <= s[p..e]
      invariant p + |Codes(rest)| == i + |Codes(vs)| && sum + Sum(rest) == Sum(vs)
    {
      ScanStep(tmp, rest, s, p, e);
      var got := GetQuick(tmp, s, p);
      if got.nbytes == 0 { return sum, e; }
      tmp := got.value;
      sum, p, left, rest := sum + tmp, p + got.nbytes, left - 1, rest[1..];
    }
  }

  /** udm_coord_skip: `wide` is the 32-bit build, which tests four bytes at a time. */
  method CoordSkip(s: seq<byte>, i: nat, e: nat, n: nat, wide: bool, ghost vs: seq<value>) returns (p: nat)
    requires i <= e <= |s| && |vs| == n && Codes(vs) <= s[i..e]
    ensures p == i + |Codes(vs)|
  {
    hide Put, Get, Decode, GetQuick;
    ghost var rest := vs;
    var left := n;
    p := i;
    if wide {
      while left > 4 && p < e - 4
        invariant left == |rest| && i <= p <= e && Codes(rest) <= s[p..e]
        invariant p + |Codes(rest)| == i + |Codes(vs)|
        decreases left
      {
        if s[p] >= 128 || s[p + 1] >= 128 || s[p + 2] >= 128 || s[p + 3] >= 128 { break; }
        SkipFour(rest, s, p, e);
        left, p, rest := left - 4, p + 4, rest[4..];
      }
    }
    while left > 0 && p < e
      invariant left == |rest| && i <= p <= e && Codes(rest) <= s[p..e]
      invariant p + |Codes(rest)| == i + |Codes(vs)|
      decreases left
    {
      ScanStep(0, rest, s, p, e);
      var c := s[p];
      p := p + 1;
      if c >= 0x80 {
        if c < 0xC2 { return e; }
        else if c < 0xE0 { p := p + 1; }
        else if c < 0xF0 { p := p + 2; }
        else if c < 0xF8 { p := p + 3; }
        else { return e; }
        if p > e { return e; }
      }
      left, rest := left - 1, rest[1..];
    }
  }

  lemma SkipOne(vs: seq<value>, s: seq<byte>, p: nat, e: nat)
    requires vs != [] && p < e <= |s| && Codes(vs) <= s[p..e] && s[p] < 128
    ensures Codes(vs[1..]) <= s[p + 1..e] && |Codes(vs)| == 1 + |Codes(vs[1..])|
  {
    ScanStep(0, vs, s, p, e);
  }

  lemma SkipFour(vs: seq<value>, s: seq<byte>, p: nat, e: nat)
    requires |vs| >= 4 && p + 4 <= e <= |s| && Codes(vs) <= s[p..e]
    requires s[p] < 128 && s[p + 1] < 128 && s[p + 2] < 128 && s[p + 3] < 128
    ensures Codes(vs[4..]) <= s[p + 4..e] && |Codes(vs)| == 4 + |Codes(vs[4..])|
  {
    SkipOne(vs, s, p, e);
    SkipOne(vs[1..], s, p + 1, e);
    assert vs[1..][1..] == vs[2..];
    SkipOne(vs[2..], s, p + 2, e);
    assert vs[2..][1..] == vs[3..];
    SkipOne(vs[3..], s, p + 3, e);
    assert vs[3..][1..] == vs[4..];
  }

  /** strlen: how many bytes from i on come before the first zero. */
  method Strlen(s: seq<byte>, i: nat) returns (n: nat)
    requires i <= |s| && 0 in s[i..]
    ensures i + n < |s| && s[i + n] == 0 && 0 !in s[i..i + n]
  {
    n := 0;
    while s[i + n] != 0
      invariant i + n < |s| && 0 !in s[i..i + n] && 0 in s[i + n..]
      decreases |s| - i - n
    {
      assert s[i + n..] == [s[i + n]] + s[i + n + 1..];
      assert s[i..i + (n + 1)] == s[i..i + n] + [s[i + n]];
      n := n + 1;
    }
  }

  lemma EndOfCodes(vs: seq<value>, s: seq<byte>, i: nat, n: nat)
    requires 0 !in vs && i <= |s| && Codes(vs) + [0] <= s[i..]
    requires i + n < |s| && s[i + n] == 0 && 0 !in s[i..i + n]
    ensures s[i..i + n] == Codes(vs)
  {
    hide Codes;
    CodesHaveNoZero(vs);
    var b := Codes(vs);
    assert (b + [0])[|b|] == 0 && s[i + |b|] == s[i..][|b|];
    assert forall k :: 0 <= k < |b| ==> s[i + k] == s[i..][k] == (b + [0])[k] == b[k] && b[k] in b;
    var t := s[i..i + n];
    assert forall k :: 0 <= k < |t| ==> t[k] in t && t[k] == s[i + k];
  }

  /**
   * udm_coord_len of a string: the number of codes before its terminating zero, which codes of non-zero values lack.
   */
  method CoordLen(s: seq<byte>, i: nat, ghost vs: seq<value>) returns (len: nat)
    requires 0 !in vs && i <= |s| && Codes(vs) + [0] <= s[i..]
    ensures len == |vs|
  {
    hide Put, Get, Decode, GetQuick;
    assert s[i..][|Codes(vs)|] == 0;
    var lintag := Strlen(s, i);
    EndOfCodes(vs, s, i, lintag);
    var e := i + lintag;
    len := 0;
    var p := i;
    ghost var rest := vs;
    while p < e
      invariant len + |rest| == |vs| && i <= p <= e && Codes(rest) == s[p..e]
      decreases e - p
    {
      ScanStep(0, rest, s, p, e);
      var got := Get(0, s, p, e);
      if got.nbytes == 0 { break; }
      p, len, rest := p + got.nbytes, len + 1, rest[1..];
    }
  }
}
