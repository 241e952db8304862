/** utf8_getc, utf8_putc and utf8_str_is_valid of encode/utf8.c. */
module Utf8 {

  // ---- the encoding of section 2 of RFC 2279

  /** The bytes that a value takes. */
  function Size(v: bv32): (n: nat)
    ensures 1 <= n <= 6
  {
    if v < 0x80 then 1
    else if v < 0x800 then 2
    else if v < 0x1_0000 then 3
    else if v < 0x20_0000 then 4
    else if v < 0x400_0000 then 5
    else 6
  }

  /** The fixed bits of the first byte of a sequence of n. */
  function Mark(n: nat): bv8
    requires 1 <= n <= 6
  {
    if n == 1 then 0x00 else if n == 2 then 0xc0 else if n == 3 then 0xe0
    else if n == 4 then 0xf0 else if n == 5 then 0xf8 else 0xfc
  }

  /** Its free bits. */
  function Free(n: nat): bv32
    requires 1 <= n <= 6
  {
    if n == 1 then 0x7f else if n == 2 then 0x1f else if n == 3 then 0x0f
    else if n == 4 then 0x07 else if n == 5 then 0x03 else 0x01
  }

  /** All but the low 6 * k bits. */
  function Upper(v: bv32, k: nat): bv32 {
    if k == 0 then v else Upper(v >> 6, k - 1)
  }

  /** The first byte of a sequence of n. */
  function Lead(n: nat, v: bv32): bv8
    requires 1 <= n <= 6
  {
    (v & Free(n)) as bv8 | Mark(n)
  }

  function Six(v: bv32): bv8 {
    (v & 0x3f) as bv8 | 0x80
  }

  /** The low 6 * k bits in k bytes. */
  function Rest(v: bv32, k: nat): (s: seq<bv8>)
    ensures |s| == k
  {
    if k == 0 then [] else Rest(v >> 6, k - 1) + [Six(v)]
  }

  function Encoding(v: bv32): (s: seq<bv8>)
    ensures |s| == Size(v)
  {
    var n := Size(v);
    [Lead(n, Upper(v, n - 1))] + Rest(v, n - 1)
  }

  // ---- decoding

  /** The length that a first byte announces, 0 if it is none. */
  function Announced(b: bv8): (n: nat)
    ensures n <= 6
  {
    if b < 0x80 then 1
    else if b < 0xc0 then 0
    else if b < 0xe0 then 2
    else if b < 0xf0 then 3
    else if b < 0xf8 then 4
    else if b < 0xfc then 5
    else if b < 0xfe then 6
    else 0
  }

  predicate Continues(b: bv8) {
    0x80 <= b < 0xc0
  }

  /** Six more bits. */
  function Push(v: bv32, b: bv8): bv32 {
    (v << 6) | (b & 0x3f) as bv32
  }

  /** The bits of the first k bytes of a sequence of n: the free ones of its first byte, and six for each other. */
  function Value(s: seq<bv8>, n: nat, k: nat): bv32
    requires 1 <= k <= n <= 6 && k <= |s|
  {
    if k == 1 then s[0] as bv32 & Free(n) else Push(Value(s, n, k - 1), s[k - 1])
  }

  lemma FirstByte(b: bv8)
    ensures Announced(b) == 1 <==> b & 0x80 == 0
    ensures Announced(b) == 2 <==> b & 0xe0 == 0xc0
    ensures Announced(b) == 3 <==> b & 0xf0 == 0xe0
    ensures Announced(b) == 4 <==> b & 0xf8 == 0xf0
    ensures Announced(b) == 5 <==> b & 0xfc == 0xf8
    ensures Announced(b) == 6 <==> b & 0xfe == 0xfc
  {
  }

  lemma NextByte(b: bv8)
    ensures Continues(b) <==> b & 0xc0 == 0x80
  {
  }

  // ---- the values written out

  function Join2(a: bv8, b: bv8): bv32 {
    ((a & 0x1f) as bv32 << 6) | (b & 0x3f) as bv32
  }

  function Join3(a: bv8, b: bv8, c: bv8): bv32 {
    ((a & 0x0f) as bv32 << 12) | ((b & 0x3f) as bv32 << 6) | (c & 0x3f) as bv32
  }

  function Join4(a: bv8, b: bv8, c: bv8, d: bv8): bv32 {
    ((a & 0x07) as bv32 << 18) | ((b & 0x3f) as bv32 << 12) | ((c & 0x3f) as bv32 << 6) | (d & 0x3f) as bv32
  }

  function Join5(a: bv8, b: bv8, c: bv8, d: bv8, e: bv8): bv32 {
    ((a & 0x03) as bv32 << 24)
    | ((b & 0x3f) as bv32 << 18)
    | ((c & 0x3f) as bv32 << 12)
    | ((d & 0x3f) as bv32 << 6)
    | (e & 0x3f) as bv32
  }

  function Join6(a: bv8, b: bv8, c: bv8, d: bv8, e: bv8, f: bv8): bv32 {
    ((a & 0x01) as bv32 << 30)
    | ((b & 0x3f) as bv32 << 24)
    | ((c & 0x3f) as bv32 << 18)
    | ((d & 0x3f) as bv32 << 12)
    | ((e & 0x3f) as bv32 << 6)
    | (f & 0x3f) as bv32
  }

  lemma Value1(s: seq<bv8>)
    requires |s| >= 1
    ensures Value(s, 1, 1) == s[0] as bv32 & 0x7f
  {
  }

  lemma Value2(s: seq<bv8>)
    requires |s| >= 2
    ensures Value(s, 2, 2) < 0x800
    ensures Value(s, 2, 2) == Join2(s[0], s[1])
  {
  }

  lemma Value3(s: seq<bv8>)
    requires |s| >= 3
    ensures Value(s, 3, 3) < 0x1_0000
    ensures Value(s, 3, 3) == Join3(s[0], s[1], s[2])
  {
    assert Value(s, 3, 2) == Push((s[0] & 0x0f) as bv32, s[1]);
  }

  lemma Value4(s: seq<bv8>)
    requires |s| >= 4
    ensures Value(s, 4, 4) < 0x20_0000
    ensures Value(s, 4, 4) == Join4(s[0], s[1], s[2], s[3])
  {
    assert Value(s, 4, 2) == Push((s[0] & 0x07) as bv32, s[1]);
    assert Value(s, 4, 3) == Push(Push((s[0] & 0x07) as bv32, s[1]), s[2]);
  }

  lemma Value5(s: seq<bv8>)
    requires |s| >= 5
    ensures Value(s, 5, 5) < 0x400_0000
    ensures Value(s, 5, 5) == Join5(s[0], s[1], s[2], s[3], s[4])
  {
    assert Value(s, 5, 2) == Push((s[0] & 0x03) as bv32, s[1]);
    assert Value(s, 5, 3) == Push(Push((s[0] & 0x03) as bv32, s[1]), s[2]);
    assert Value(s, 5, 4) == Push(Push(Push((s[0] & 0x03) as bv32, s[1]), s[2]), s[3]);
  }

  lemma Value6(s: seq<bv8>)
    requires |s| >= 6
    ensures Value(s, 6, 6) < 0x8000_0000
    ensures Value(s, 6, 6) == Join6(s[0], s[1], s[2], s[3], s[4], s[5])
  {
    assert Value(s, 6, 2) == Push((s[0] & 0x01) as bv32, s[1]);
    assert Value(s, 6, 3) == Push(Push((s[0] & 0x01) as bv32, s[1]), s[2]);
    assert Value(s, 6, 4) == Push(Push(Push((s[0] & 0x01) as bv32, s[1]), s[2]), s[3]);
    assert Value(s, 6, 5) == Push(Push(Push(Push((s[0] & 0x01) as bv32, s[1]), s[2]), s[3]), s[4]);
  }

  datatype Scan = Char(len: nat, val: bv32) | Empty | Short | Illegal | Broken | Overlong

  /** What a string begins with. */
  function Scanned(s: seq<bv8>): (r: Scan) {
    if s == [] then Empty
    else
      var n := Announced(s[0]);
      if n == 0 then Illegal
      else if |s| < n then Short
      else if exists i | 1 <= i < n :: !Continues(s[i]) then Broken
      else if Size(Value(s, n, n)) != n then Overlong
      else Char(n, Value(s, n, n))
  }

  function Code(r: Scan): int {
    match r
    case Char(len, _) => len
    case Empty => 0
    case Short => -1
    case Illegal => -2
    case Broken => -3
    case Overlong => -4
  }

  /** The error codes: for a string that is too short, a first byte that is none, another byte that is none, and an
      encoding that is too long. */
  lemma ScannedCodes(s: seq<bv8>)
    ensures s == [] ==> Code(Scanned(s)) == 0
    ensures s != [] && Announced(s[0]) == 0 ==> Code(Scanned(s)) == -2
    ensures s != [] ==> var n := Announced(s[0]);
      && (|s| < n ==> Code(Scanned(s)) == -1)
      && (0 < n <= |s| && (exists i | 1 <= i < n :: s[i] < 0x80 || s[i] >= 0xc0) ==> Code(Scanned(s)) == -3)
      && (0 < n <= |s| && (forall i | 1 <= i < n :: 0x80 <= s[i] < 0xc0) ==>
            Code(Scanned(s)) == if Size(Value(s, n, n)) == n then n else -4)
  {
    hide Announced, Value;
    if s != [] {
      forall i | 1 <= i < |s|
        ensures Continues(s[i]) <==> 0x80 <= s[i] < 0xc0
      {
      }
    }
  }

  /** utf8_getc */
  method GetC(s: seq<bv8>) returns (ret: int, val: bv32)
    ensures ret == Code(Scanned(s))
    ensures ret > 0 ==> Scanned(s) == Char(ret, val)
  {
    hide Value, Announced, Continues, Join2, Join3;
    if |s| <= 0 {
      return 0, 0;
    }
    FirstByte(s[0]);
    forall i | 1 <= i < |s|
      ensures Continues(s[i]) <==> s[i] & 0xc0 == 0x80
    {
      NextByte(s[i]);
    }
    var v: bv32;
    if s[0] & 0x80 == 0 {
      Value1(s);
      v := (s[0] & 0x7f) as bv32;
      ret := 1;
    } else if s[0] & 0xe0 == 0xc0 {
      if |s| < 2 {
        return -1, 0;
      }
      if s[1] & 0xc0 != 0x80 {
        return -3, 0;
      }
      Value2(s);
      v := Join2(s[0], s[1]);
      if v < 0x80 {
        return -4, 0;
      }
      ret := 2;
    } else if s[0] & 0xf0 == 0xe0 {
      if |s| < 3 {
        return -1, 0;
      }
      if s[1] & 0xc0 != 0x80 || s[2] & 0xc0 != 0x80 {
        return -3, 0;
      }
      Value3(s);
      v := Join3(s[0], s[1], s[2]);
      if v < 0x800 {
        return -4, 0;
      }
      ret := 3;
    } else {
      ret, v := GetLong(s);
    }
    val := v;
  }

  /** The rest of utf8_getc, for first bytes of four bytes and more and for those that are none. */
  method GetLong(s: seq<bv8>) returns (ret: int, val: bv32)
    requires |s| > 0 && Announced(s[0]) != 1 && Announced(s[0]) != 2 && Announced(s[0]) != 3
    ensures ret == Code(Scanned(s))
    ensures ret > 0 ==> Scanned(s) == Char(ret, val)
  {
    hide Value, Announced, Continues, Join4, Join5, Join6;
    FirstByte(s[0]);
    forall i | 1 <= i < |s|
      ensures Continues(s[i]) <==> s[i] & 0xc0 == 0x80
    {
      NextByte(s[i]);
    }
    var v: bv32;
    if s[0] & 0xf8 == 0xf0 {
      if |s| < 4 {
        return -1, 0;
      }
      if s[1] & 0xc0 != 0x80 || s[2] & 0xc0 != 0x80 || s[3] & 0xc0 != 0x80 {
        return -3, 0;
      }
      Value4(s);
      v := Join4(s[0], s[1], s[2], s[3]);
      if v < 0x1_0000 {
        return -4, 0;
      }
      ret := 4;
    } else if s[0] & 0xfc == 0xf8 {
      if |s| < 5 {
        return -1, 0;
      }
      if s[1] & 0xc0 != 0x80 || s[2] & 0xc0 != 0x80 || s[3] & 0xc0 != 0x80 || s[4] & 0xc0 != 0x80 {
        return -3, 0;
      }
      Value5(s);
      v := Join5(s[0], s[1], s[2], s[3], s[4]);
      if v < 0x20_0000 {
        return -4, 0;
      }
      ret := 5;
    } else if s[0] & 0xfe == 0xfc {
      if |s| < 6 {
        return -1, 0;
      }
      if s[1] & 0xc0 != 0x80 || s[2] & 0xc0 != 0x80 || s[3] & 0xc0 != 0x80
         || s[4] & 0xc0 != 0x80 || s[5] & 0xc0 != 0x80 {
        return -3, 0;
      }
      Value6(s);
      v := Join6(s[0], s[1], s[2], s[3], s[4], s[5]);
      if v < 0x400_0000 {
        return -4, 0;
      }
      ret := 6;
    } else {
      return -2, 0;
    }
    val := v;
  }

  // ---- encoding

  lemma Encoding1(v: bv32)
    requires Size(v) == 1
    ensures Encoding(v) == [Lead(1, v)]
  {
  }

  lemma Encoding2(v: bv32)
    requires Size(v) == 2
    ensures Encoding(v) == [Lead(2, v >> 6), Six(v)]
  {
    assert Rest(v, 1) == [Six(v)];
    assert Upper(v, 1) == v >> 6;
  }

  lemma Encoding3(v: bv32)
    requires Size(v) == 3
    ensures Encoding(v) == [Lead(3, v >> 12), Six(v >> 6), Six(v)]
  {
    assert Rest(v >> 6, 1) == [Six(v >> 6)];
    assert Upper(v >> 6, 1) == v >> 12;
  }

  lemma Encoding4(v: bv32)
    requires Size(v) == 4
    ensures Encoding(v) == [Lead(4, v >> 18), Six(v >> 12), Six(v >> 6), Six(v)]
  {
    assert Rest(v >> 12, 1) == [Six(v >> 12)];
    assert Upper(v >> 12, 1) == v >> 18;
    assert Rest(v >> 6, 2) == [Six(v >> 12), Six(v >> 6)];
    assert Upper(v >> 6, 2) == v >> 18;
  }

  lemma Encoding5(v: bv32)
    requires Size(v) == 5
    ensures Encoding(v) == [Lead(5, v >> 24), Six(v >> 18), Six(v >> 12), Six(v >> 6), Six(v)]
  {
    assert Rest(v >> 18, 1) == [Six(v >> 18)];
    assert Upper(v >> 18, 1) == v >> 24;
    assert Rest(v >> 12, 2) == [Six(v >> 18), Six(v >> 12)];
    assert Upper(v >> 12, 2) == v >> 24;
    assert Rest(v >> 6, 3) == [Six(v >> 18), Six(v >> 12), Six(v >> 6)];
    assert Upper(v >> 6, 3) == v >> 24;
  }

  lemma Encoding6(v: bv32)
    requires Size(v) == 6
    ensures Encoding(v) == [Lead(6, v >> 30), Six(v >> 24), Six(v >> 18), Six(v >> 12), Six(v >> 6), Six(v)]
  {
    assert Rest(v >> 24, 1) == [Six(v >> 24)];
    assert Upper(v >> 24, 1) == v >> 30;
    assert Rest(v >> 18, 2) == [Six(v >> 24), Six(v >> 18)];
    assert Upper(v >> 18, 2) == v >> 30;
    assert Rest(v >> 12, 3) == [Six(v >> 24), Six(v >> 18), Six(v >> 12)];
    assert Upper(v >> 12, 3) == v >> 30;
    assert Rest(v >> 6, 4) == [Six(v >> 24), Six(v >> 18), Six(v >> 12), Six(v >> 6)];
    assert Upper(v >> 6, 4) == v >> 30;
  }


  // ---- the bijection

  /** Only the 31 low bits of a value are encoded. */
  function Kept(v: bv32): bv32 {
    v & 0x7fff_ffff
  }

  lemma KeptAll(v: bv32)
    ensures Kept(v) == v <==> v < 0x8000_0000
    ensures v >= 0x8000_0000 ==> Size(v) == 6
    ensures Size(Kept(v)) != Size(v) ==> v >= 0x8000_0000 && Kept(v) < 0x400_0000
    ensures v >= 0x8000_0000 && Kept(v) < 0x400_0000 ==> Size(Kept(v)) != 6
  {
  }

  lemma Kept1(v: bv32, a: bv8)
    requires Size(v) == 1 && a == Lead(1, v)
    ensures a as bv32 & 0x7f == Kept(v)
  {
  }

  lemma Rejoined1(a: bv8)
    requires Announced(a) == 1
    ensures Lead(1, a as bv32 & 0x7f) == a
  {
  }

  lemma Split2(v: bv32)
    requires Size(v) == 2
    ensures Join2(Lead(2, v >> 6), Six(v)) == Kept(v)
  {
  }

  lemma Split3(v: bv32)
    requires Size(v) == 3
    ensures Join3(Lead(3, v >> 12), Six(v >> 6), Six(v)) == Kept(v)
  {
  }

  lemma Split4(v: bv32)
    requires Size(v) == 4
    ensures Join4(Lead(4, v >> 18), Six(v >> 12), Six(v >> 6), Six(v)) == Kept(v)
  {
  }

  lemma Split5(v: bv32)
    requires Size(v) == 5
    ensures Join5(Lead(5, v >> 24), Six(v >> 18), Six(v >> 12), Six(v >> 6), Six(v)) == Kept(v)
  {
  }

  lemma Split6(v: bv32)
    requires Size(v) == 6
    ensures Join6(Lead(6, v >> 30), Six(v >> 24), Six(v >> 18), Six(v >> 12), Six(v >> 6), Six(v)) == Kept(v)
  {
  }

  lemma Rejoined2(v: bv32, a: bv8, b: bv8)
    requires v == Join2(a, b)
    requires Announced(a) == 2 && Continues(b)
    ensures a == Lead(2, v >> 6) && b == Six(v)
  {
  }

  lemma Rejoined3(v: bv32, a: bv8, b: bv8, c: bv8)
    requires v == Join3(a, b, c)
    requires Announced(a) == 3 && Continues(b) && Continues(c)
    ensures a == Lead(3, v >> 12) && b == Six(v >> 6) && c == Six(v)
  {
  }

  lemma Rejoined4(v: bv32, a: bv8, b: bv8, c: bv8, d: bv8)
    requires v == Join4(a, b, c, d)
    requires Announced(a) == 4 && Continues(b) && Continues(c) && Continues(d)
    ensures a == Lead(4, v >> 18) && b == Six(v >> 12) && c == Six(v >> 6) && d == Six(v)
  {
  }

  lemma Rejoined5(v: bv32, a: bv8, b: bv8, c: bv8, d: bv8, e: bv8)
    requires v == Join5(a, b, c, d, e)
    requires Announced(a) == 5 && Continues(b) && Continues(c) && Continues(d) && Continues(e)
    ensures a == Lead(5, v >> 24) && b == Six(v >> 18) && c == Six(v >> 12) && d == Six(v >> 6) && e == Six(v)
  {
  }

  lemma Rejoined6(v: bv32, a: bv8, b: bv8, c: bv8, d: bv8, e: bv8, f: bv8)
    requires v == Join6(a, b, c, d, e, f)
    requires Announced(a) == 6 && Continues(b) && Continues(c) && Continues(d) && Continues(e) && Continues(f)
    ensures a == Lead(6, v >> 30) && b == Six(v >> 24) && c == Six(v >> 18)
    ensures d == Six(v >> 12) && e == Six(v >> 6) && f == Six(v)
  {
  }

  lemma LeadAnnounces(n: nat, v: bv32)
    requires 1 <= n <= 6
    ensures Announced(Lead(n, v)) == n
  {
  }

  lemma SixContinues(v: bv32)
    ensures Continues(Six(v))
  {
  }

  lemma {:induction false} RestContinues(v: bv32, k: nat)
    ensures forall i | 0 <= i < k :: Continues(Rest(v, k)[i])
  {
    hide Continues, Six;
    if k > 0 {
      RestContinues(v >> 6, k - 1);
      SixContinues(v);
    }
  }

  lemma FirstOfEncoding(v: bv32)
    ensures Announced(Encoding(v)[0]) == Size(v)
    ensures forall i | 1 <= i < Size(v) :: Continues(Encoding(v)[i])
  {
    hide Announced, Lead, Continues, Size, Upper;
    LeadAnnounces(Size(v), Upper(v, Size(v) - 1));
    RestContinues(v, Size(v) - 1);
  }

  lemma ValueOfEncoding(v: bv32, s: seq<bv8>)
    requires Encoding(v) <= s
    ensures Value(s, Size(v), Size(v)) == Kept(v)
  {
    hide Value, Encoding, Join2, Join3, Join4, Join5, Join6, Six, Lead, Kept;
    match Size(v)
    case 1 => Encoding1(v); Value1(s); Kept1(v, s[0]);
    case 2 => Encoding2(v); Value2(s); Split2(v);
    case 3 => Encoding3(v); Value3(s); Split3(v);
    case 4 => Encoding4(v); Value4(s); Split4(v);
    case 5 => Encoding5(v); Value5(s); Split5(v);
    case 6 => Encoding6(v); Value6(s); Split6(v);
  }

  /** What utf8_putc writes is read back, with nothing of what follows, exactly for the values of 31 bits. */
  lemma EncodingScanned(v: bv32, more: seq<bv8>)
    ensures Scanned(Encoding(v) + more) == Char(Size(v), v) <==> v < 0x8000_0000
    ensures v >= 0x8000_0000 ==>
      Scanned(Encoding(v) + more) == if Kept(v) < 0x400_0000 then Overlong else Char(6, Kept(v))
  {
    hide Value, Encoding, Continues, Announced, Kept, Size;
    var s := Encoding(v) + more;
    KeptAll(v);
    FirstOfEncoding(v);
    ValueOfEncoding(v, s);
    assert s[0] == Encoding(v)[0];
    assert forall i | 1 <= i < Size(v) :: s[i] == Encoding(v)[i];
  }

  lemma Reencoded1(s: seq<bv8>)
    requires |s| >= 1 && Announced(s[0]) == 1
    requires Size(Value(s, 1, 1)) == 1
    ensures Encoding(Value(s, 1, 1)) == s[..1]
  {
    hide Value, Encoding, Six, Lead, Size, Continues, Announced;
    Value1(s);
    Encoding1(Value(s, 1, 1));
    Rejoined1(s[0]);
  }

  lemma Reencoded2(s: seq<bv8>)
    requires |s| >= 2 && Announced(s[0]) == 2 && forall i | 1 <= i < 2 :: Continues(s[i])
    requires Size(Value(s, 2, 2)) == 2
    ensures Encoding(Value(s, 2, 2)) == s[..2]
  {
    hide Value, Encoding, Join2, Six, Lead, Size, Continues, Announced;
    var v := Value(s, 2, 2);
    Value2(s);
    Encoding2(v);
    Rejoined2(v, s[0], s[1]);
  }

  lemma Reencoded3(s: seq<bv8>)
    requires |s| >= 3 && Announced(s[0]) == 3 && forall i | 1 <= i < 3 :: Continues(s[i])
    requires Size(Value(s, 3, 3)) == 3
    ensures Encoding(Value(s, 3, 3)) == s[..3]
  {
    hide Value, Encoding, Join3, Six, Lead, Size, Continues, Announced;
    var v := Value(s, 3, 3);
    Value3(s);
    Encoding3(v);
    Rejoined3(v, s[0], s[1], s[2]);
  }

  lemma Reencoded4(s: seq<bv8>)
    requires |s| >= 4 && Announced(s[0]) == 4 && forall i | 1 <= i < 4 :: Continues(s[i])
    requires Size(Value(s, 4, 4)) == 4
    ensures Encoding(Value(s, 4, 4)) == s[..4]
  {
    hide Value, Encoding, Join4, Six, Lead, Size, Continues, Announced;
    var v := Value(s, 4, 4);
    Value4(s);
    Encoding4(v);
    Rejoined4(v, s[0], s[1], s[2], s[3]);
  }

  lemma Reencoded5(s: seq<bv8>)
    requires |s| >= 5 && Announced(s[0]) == 5 && forall i | 1 <= i < 5 :: Continues(s[i])
    requires Size(Value(s, 5, 5)) == 5
    ensures Encoding(Value(s, 5, 5)) == s[..5]
  {
    hide Value, Encoding, Join5, Six, Lead, Size, Continues, Announced;
    var v := Value(s, 5, 5);
    Value5(s);
    Encoding5(v);
    Rejoined5(v, s[0], s[1], s[2], s[3], s[4]);
  }

  lemma Reencoded6(s: seq<bv8>)
    requires |s| >= 6 && Announced(s[0]) == 6 && forall i | 1 <= i < 6 :: Continues(s[i])
    requires Size(Value(s, 6, 6)) == 6
    ensures Encoding(Value(s, 6, 6)) == s[..6]
  {
    hide Value, Encoding, Join6, Six, Lead, Size, Continues, Announced;
    var v := Value(s, 6, 6);
    Value6(s);
    Encoding6(v);
    Rejoined6(v, s[0], s[1], s[2], s[3], s[4], s[5]);
  }

  /** Whatever is accepted is the encoding of its value: only minimal forms are. */
  lemma ScannedEncoding(s: seq<bv8>)
    requires Scanned(s).Char?
    ensures var Char(n, v) := Scanned(s); n == Size(v) <= |s| && v < 0x8000_0000 && s[..n] == Encoding(v)
  {
    hide Value, Encoding, Size, Continues, Announced, Join2, Join3, Join4, Join5, Join6;
    match Announced(s[0])
    case 1 => Reencoded1(s); Value1(s);
    case 2 => Reencoded2(s); Value2(s);
    case 3 => Reencoded3(s); Value3(s);
    case 4 => Reencoded4(s); Value4(s);
    case 5 => Reencoded5(s); Value5(s);
    case 6 => Reencoded6(s); Value6(s);
  }

  /** utf8_putc with the pointer str + pos; without a buffer it only tells the length. */
  method PutC(str: array?<bv8>, pos: nat, len: nat, value: bv32) returns (ret: int)
    requires str != null ==> pos + len <= str.Length
    modifies str
    ensures ret == if str == null || Size(value) <= len then Size(value) else -1
    ensures str != null && ret > 0 ==> str[..] == old(str[..pos]) + Encoding(value) + old(str[pos + ret..])
    ensures str != null && ret < 0 ==> str[..] == old(str[..])
  {
    hide Encoding, Lead, Six;
    var room := if str == null then 6 else len;
    if str != null && len <= 0 {
      return -1;
    }
    if value < 0x80 {
      Encoding1(value);
      if str != null {
        str[pos] := Lead(1, value);
      }
      return 1;
    }
    if value < 0x800 {
      if room < 2 {
        return -1;
      }
      Encoding2(value);
      if str != null {
        str[pos] := Lead(2, value >> 6);
        str[pos + 1] := Six(value);
      }
      return 2;
    }
    if value < 0x1_0000 {
      if room < 3 {
        return -1;
      }
      Encoding3(value);
      if str != null {
        str[pos] := Lead(3, value >> 12);
        str[pos + 1] := Six(value >> 6);
        str[pos + 2] := Six(value);
      }
      return 3;
    }
    ret := PutLong(str, pos, room, value);
  }

  /** The rest of utf8_putc, for four bytes and more. */
  method PutLong(str: array?<bv8>, pos: nat, room: nat, value: bv32) returns (ret: int)
    requires value >= 0x1_0000 && (str != null ==> pos + room <= str.Length)
    modifies str
    ensures ret == if Size(value) <= room then Size(value) else -1
    ensures str != null && ret > 0 ==> str[..] == old(str[..pos]) + Encoding(value) + old(str[pos + ret..])
    ensures str != null && ret < 0 ==> str[..] == old(str[..])
  {
    hide Encoding, Lead, Six;
    if value < 0x20_0000 {
      if room < 4 {
        return -1;
      }
      Encoding4(value);
      if str != null {
        str[pos] := Lead(4, value >> 18);
        str[pos + 1] := Six(value >> 12);
        str[pos + 2] := Six(value >> 6);
        str[pos + 3] := Six(value);
      }
      return 4;
    }
    ret := PutLonger(str, pos, room, value);
  }

  /** The rest of utf8_putc, for five bytes and six. */
  method PutLonger(str: array?<bv8>, pos: nat, room: nat, value: bv32) returns (ret: int)
    requires value >= 0x20_0000 && (str != null ==> pos + room <= str.Length)
    modifies str
    ensures ret == if Size(value) <= room then Size(value) else -1
    ensures str != null && ret > 0 ==> str[..] == old(str[..pos]) + Encoding(value) + old(str[pos + ret..])
    ensures str != null && ret < 0 ==> str[..] == old(str[..])
  {
    hide Encoding, Lead, Six;
    if value < 0x400_0000 {
      if room < 5 {
        return -1;
      }
      Encoding5(value);
      if str != null {
        str[pos] := Lead(5, value >> 24);
        str[pos + 1] := Six(value >> 18);
        str[pos + 2] := Six(value >> 12);
        str[pos + 3] := Six(value >> 6);
        str[pos + 4] := Six(value);
      }
      return 5;
    }
    ret := PutLongest(str, pos, room, value);
  }

  /** The rest of utf8_putc, for six bytes. */
  method PutLongest(str: array?<bv8>, pos: nat, room: nat, value: bv32) returns (ret: int)
    requires value >= 0x400_0000 && (str != null ==> pos + room <= str.Length)
    modifies str
    ensures ret == if Size(value) <= room then Size(value) else -1
    ensures str != null && ret > 0 ==> str[..] == old(str[..pos]) + Encoding(value) + old(str[pos + ret..])
    ensures str != null && ret < 0 ==> str[..] == old(str[..])
  {
    hide Encoding, Lead, Six;
    if room < 6 {
      return -1;
    }
    Encoding6(value);
    if str != null {
      str[pos] := Lead(6, value >> 30);
      str[pos + 1] := Six(value >> 24);
      str[pos + 2] := Six(value >> 18);
      str[pos + 3] := Six(value >> 12);
      str[pos + 4] := Six(value >> 6);
      str[pos + 5] := Six(value);
    }
    ret := 6;
  }

  // ---- examples

  /** A, not identical to, alpha, full stop: the example of section 4 of RFC 2279. */
  lemma EncodingExamples()
    ensures Encoding(0x41) == [0x41] && Encoding(0x2262) == [0xe2, 0x89, 0xa2]
    ensures Encoding(0x391) == [0xce, 0x91] && Encoding(0x2e) == [0x2e]
  {
    Encoding1(0x41);
    Encoding3(0x2262);
    Encoding2(0x391);
    Encoding1(0x2e);
  }

  /** The first byte of a sequence tells its length, and the others are told from first bytes. */
  lemma LeadRange(v: bv32)
    requires v < 0x8000_0000
    ensures var b, n := Encoding(v)[0], Size(v);
      if n == 1 then b < 0x80 else if n == 2 then 0xc0 <= b < 0xe0 else if n == 3 then 0xe0 <= b < 0xf0
      else if n == 4 then 0xf0 <= b < 0xf8 else if n == 5 then 0xf8 <= b < 0xfc else 0xfc <= b < 0xfe
    ensures forall i | 1 <= i < Size(v) :: 0x80 <= Encoding(v)[i] < 0xc0
  {
    hide Encoding;
    FirstOfEncoding(v);
  }
}
