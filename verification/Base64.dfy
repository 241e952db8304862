/** b64_encode and b64_decode of encode/base64.c. */
module Base64 {
  import opened Options
  import opened Sequences

  // ---- the alphabet

  const Pad: bv8 := 0x3d

  /** Entry v of the table: A to Z, a to z, 0 to 9, plus, slash and the equals sign. */
  function Letter(v: bv8): bv8
    requires v <= 64
  {
    if v < 26 then 0x41 + v
    else if v < 52 then 0x61 + (v - 26)
    else if v < 62 then 0x30 + (v - 52)
    else if v == 62 then 0x2b
    else if v == 63 then 0x2f
    else Pad
  }

  /** strchr on the table; it also finds the terminating zero, as entry 65. */
  function Find(c: bv8): (v: Option<bv8>)
    ensures v.Some? ==> v.value <= 65
  {
    if 0x41 <= c <= 0x5a then Some(c - 0x41)
    else if 0x61 <= c <= 0x7a then Some(c - 0x61 + 26)
    else if 0x30 <= c <= 0x39 then Some(c - 0x30 + 52)
    else if c == 0x2b then Some(62)
    else if c == 0x2f then Some(63)
    else if c == Pad then Some(64)
    else if c == 0 then Some(65)
    else None
  }

  lemma FindLetter(v: bv8)
    requires v <= 64
    ensures Find(Letter(v)) == Some(v) && Letter(v) != 0 && !IsSpace(Letter(v)) && (Letter(v) == Pad <==> v == 64)
  {
  }

  // The table as the program writes it, in parts.

  const Capitals := "ABCDEFGHIJKLMNOPQRSTUVWXYZ"
  const Smalls := "abcdefghijklmnopqrstuvwxyz"
  const Digits := "0123456789"
  const Alphabet := Capitals + Smalls + Digits + "+/="

  lemma Capital(k: int)
    ensures |Capitals| == 26 && (0 <= k < 26 ==> Capitals[k] as int == 0x41 + k)
  {
  }

  lemma Small(k: int)
    ensures |Smalls| == 26 && (0 <= k < 26 ==> Smalls[k] as int == 0x61 + k)
  {
  }

  lemma Digit(k: int)
    ensures |Digits| == 10 && (0 <= k < 10 ==> Digits[k] as int == 0x30 + k)
  {
  }

  lemma LetterNumber(v: bv8)
    requires v <= 64
    ensures v as int <= 64
    ensures Letter(v) as int ==
      if v as int < 26 then 0x41 + v as int else if v as int < 52 then 0x61 + (v as int - 26)
      else if v as int < 62 then 0x30 + (v as int - 52) else if v as int == 62 then 0x2b
      else if v as int == 63 then 0x2f else 0x3d
  {
  }

  /** Letter is look-up in the table. */
  lemma LetterInTable(v: bv8)
    requires v <= 64
    ensures |Alphabet| == 65 && v as int <= 64 && Letter(v) as int == Alphabet[v as int] as int
  {
    hide Capitals, Smalls, Digits, Letter;
    LetterNumber(v);
    var k := v as int;
    Capital(k);
    Small(k - 26);
    Digit(k - 52);
  }

  /** And Find gives the place in the table, or that of the zero behind it. */
  lemma FindInTable(c: bv8)
    ensures |Alphabet| == 65 && Find(0) == Some(65)
    ensures c != 0 && Find(c).Some? ==> Find(c).value as int < 65 && Alphabet[Find(c).value as int] as int == c as int
    ensures forall k | 0 <= k < 65 && Alphabet[k] as int == c as int :: Find(c).Some? && Find(c).value as int == k
  {
    hide Alphabet, Letter;
    LetterInTable(0);
    if c != 0 && Find(c).Some? {
      LetterFound(c);
      LetterInTable(Find(c).value);
    }
    forall k | 0 <= k < 65 && Alphabet[k] as int == c as int
      ensures Find(c).Some? && Find(c).value as int == k
    {
      var v := k as bv8;
      Narrow(k);
      LetterInTable(v);
      FindLetter(v);
      SameByte(c, Letter(v));
    }
  }

  lemma LetterFound(c: bv8)
    requires c != 0 && Find(c).Some?
    ensures Find(c).value <= 64 && Letter(Find(c).value) == c
  {
  }

  lemma Narrow(k: int)
    requires 0 <= k < 65
    ensures (k as bv8) as int == k && k as bv8 <= 64
  {
  }

  lemma SameByte(a: bv8, b: bv8)
    requires a as int == b as int
    ensures a == b
  {
  }

  predicate IsSpace(c: bv8) {
    c == 0x20 || 0x09 <= c <= 0x0d
  }

  const Spaces := " \t\n\U{0b}\U{0c}\r"

  lemma SpacesAre(c: bv8)
    ensures |Spaces| == 6
    ensures IsSpace(c) <==> exists k :: 0 <= k < |Spaces| && Spaces[k] as int == c as int
  {
    assert Spaces[0] as int == 0x20 && Spaces[1] as int == 0x09 && Spaces[2] as int == 0x0a;
    assert Spaces[3] as int == 0x0b && Spaces[4] as int == 0x0c && Spaces[5] as int == 0x0d;
    assert IsSpace(c) <==> c as int == 0x20 || 0x09 <= c as int <= 0x0d;
  }

  // ---- encoding, section 4 of RFC 4648

  /** The six-bit groups of up to three bytes. */
  function First(a: bv8): bv8 { (a & 0xfc) >> 2 }
  function Second(a: bv8, b: bv8): bv8 { ((a & 0x03) << 4) | ((b & 0xf0) >> 4) }
  function Third(b: bv8, c: bv8): bv8 { ((b << 2) & 0x3c) | ((c & 0xc0) >> 6) }
  function Fourth(c: bv8): bv8 { c & 0x3f }

  lemma SixBits(a: bv8, b: bv8)
    ensures First(a) < 64 && Second(a, b) < 64 && Third(a, b) < 64 && Fourth(a) < 64
  {
  }

  function Group(s: seq<bv8>): (r: seq<bv8>)
    requires s != []
    ensures |r| == 4
  {
    var a, b, c := s[0], if |s| > 1 then s[1] else 0, if |s| > 2 then s[2] else 0;
    SixBits(a, b);
    SixBits(b, c);
    SixBits(c, c);
    [Letter(First(a)), Letter(Second(a, b)),
     if |s| > 1 then Letter(Third(b, c)) else Pad,
     if |s| > 2 then Letter(Fourth(c)) else Pad]
  }

  function Encoded(s: seq<bv8>): (r: seq<bv8>)
    ensures |r| == (|s| + 2) / 3 * 4
  {
    if s == [] then [] else Group(s) + if |s| > 3 then Encoded(s[3..]) else []
  }

  /** The 24-bit number that up to three bytes make, missing ones being zero. */
  function Number(s: seq<bv8>): bv32
    requires s != []
  {
    (s[0] as bv32 << 16) | ((if |s| > 1 then s[1] else 0) as bv32 << 8) | (if |s| > 2 then s[2] else 0) as bv32
  }

  /** Its four digits to the base 64, from the highest. */
  function Sixth(n: bv32, k: nat): bv8
    requires k < 4
  {
    ((if k == 0 then n >> 18 else if k == 1 then n >> 12 else if k == 2 then n >> 6 else n) & 0x3f) as bv8
  }

  lemma NumberBits(a: bv8, b: bv8, c: bv8)
    ensures var n := (a as bv32 << 16) | (b as bv32 << 8) | c as bv32;
      First(a) == Sixth(n, 0) && Second(a, b) == Sixth(n, 1) && Third(b, c) == Sixth(n, 2) && Fourth(c) == Sixth(n, 3)
  {
  }

  lemma GroupDigits(s: seq<bv8>)
    requires s != []
    ensures var n := Number(s);
      && (forall k | 0 <= k < 4 :: Sixth(n, k) <= 64)
      && Group(s) == [Letter(Sixth(n, 0)), Letter(Sixth(n, 1)), if |s| > 1 then Letter(Sixth(n, 2)) else Pad,
                      if |s| > 2 then Letter(Sixth(n, 3)) else Pad]
  {
    hide Letter, First, Second, Third, Fourth, Sixth;
    NumberBits(s[0], if |s| > 1 then s[1] else 0, if |s| > 2 then s[2] else 0);
    forall k | 0 <= k < 4
      ensures Sixth(Number(s), k) <= 64
    {
      SixthSmall(Number(s), k);
    }
  }

  lemma GroupAt(s: seq<bv8>, k: nat)
    requires s != [] && k < 4
    ensures |Alphabet| == 65 && Sixth(Number(s), k) as int < 64
    ensures Group(s)[k] as int == if k <= |s| then Alphabet[Sixth(Number(s), k) as int] as int else '=' as int
  {
    hide Alphabet, Letter, Sixth, Group, Number;
    GroupDigits(s);
    SixthSmall(Number(s), k);
    LetterInTable(Sixth(Number(s), k));
  }

  lemma SixthSmall(n: bv32, k: nat)
    requires k < 4
    ensures Sixth(n, k) <= 64 && Sixth(n, k) as int < 64
  {
  }

  /** Every character of an encoding: a digit of the number of its group, in the table, or an equals sign where no byte
      is behind it. */
  lemma {:induction false} EncodedAt(s: seq<bv8>, i: nat)
    requires i < |Encoded(s)|
    ensures 3 * (i / 4) < |s| && |Alphabet| == 65
    ensures var g := s[3 * (i / 4)..];
      && Sixth(Number(g), i % 4) as int < 64
      && Encoded(s)[i] as int == if i % 4 <= |g| then Alphabet[Sixth(Number(g), i % 4) as int] as int else '=' as int
    decreases |s|
  {
    hide Alphabet, Encoded, Number, Sixth;
    EncodedFrom(s, i);
    if i < 4 {
      assert i / 4 == 0 && i % 4 == i && s[0..] == s;
      GroupAt(s, i);
    } else {
      EncodedAt(s[3..], i - 4);
      assert (i - 4) / 4 == i / 4 - 1 && (i - 4) % 4 == i % 4;
      SameRest(s, i / 4);
    }
  }

  lemma EncodedFrom(s: seq<bv8>, i: nat)
    requires i < |Encoded(s)|
    ensures s != [] && (i < 4 ==> Encoded(s)[i] == Group(s)[i])
    ensures i >= 4 ==> |s| > 3 && i - 4 < |Encoded(s[3..])| && Encoded(s)[i] == Encoded(s[3..])[i - 4]
  {
    hide Group;
  }

  lemma SameRest(s: seq<bv8>, q: nat)
    requires 0 < q && 3 * q <= |s|
    ensures s[3..][3 * (q - 1)..] == s[3 * q..]
  {
  }

  // ---- decoding

  /** The bits of a group, put together again. */
  function Push(w: bv32, v: bv8): bv32 {
    (w << 6) | v as bv32
  }

  function Taken(w: bv32, bits: bv8): bv8
    requires 8 <= bits <= 13
  {
    ((w & (0xff << (bits - 8))) >> (bits - 8)) as bv8
  }

  /** What b64_decode makes of the rest of its input, bits of the accumulator w being left over. */
  function Decoded(w: bv32, bits: bv8, cs: seq<bv8>): (r: Option<seq<bv8>>)
    requires bits < 8
    decreases |cs|
  {
    if cs == [] then Some([])
    else if IsSpace(cs[0]) then Decoded(w, bits, cs[1..])
    else if Find(cs[0]).None? then None
    else if cs[0] == Pad then if (w << 6) & 0xff != 0 then None else Some([])
    else
      var w' := Push(w, Find(cs[0]).value);
      if bits + 6 < 8 then Decoded(w', bits + 6, cs[1..])
      else
        match Decoded(w', bits + 6 - 8, cs[1..])
        case None => None
        case Some(rest) => Some([Taken(w', bits + 6)] + rest)
  }

  /** Whatever follows an equals sign makes no difference. */
  lemma {:induction false} PadEnds(w: bv32, bits: bv8, a: seq<bv8>, b: seq<bv8>, c: seq<bv8>)
    requires bits < 8
    ensures Decoded(w, bits, a + [Pad] + b) == Decoded(w, bits, a + [Pad] + c)
    decreases |a|
  {
    hide Push, Taken;
    var s, t := a + [Pad] + b, a + [Pad] + c;
    if a != [] && a[0] != Pad {
      assert s[1..] == a[1..] + [Pad] + b && t[1..] == a[1..] + [Pad] + c;
      if IsSpace(a[0]) {
        PadEnds(w, bits, a[1..], b, c);
      } else if Find(a[0]).Some? {
        PadEnds(Push(w, Find(a[0]).value), if bits + 6 < 8 then bits + 6 else bits + 6 - 8, a[1..], b, c);
      }
    }
  }

  // ---- what decoding means

  /** Leaves white space out. */
  function Stripped(cs: seq<bv8>): (r: seq<bv8>)
    ensures forall i | 0 <= i < |r| :: !IsSpace(r[i]) && r[i] in cs
  {
    if cs == [] then [] else if IsSpace(cs[0]) then Stripped(cs[1..]) else [cs[0]] + Stripped(cs[1..])
  }

  lemma {:induction false} SpacesIgnored(w: bv32, bits: bv8, cs: seq<bv8>)
    requires bits < 8
    ensures Decoded(w, bits, cs) == Decoded(w, bits, Stripped(cs))
    decreases |cs|
  {
    hide IsSpace, Find, Push, Taken;
    if cs != [] {
      if IsSpace(cs[0]) {
        SpacesIgnored(w, bits, cs[1..]);
      } else {
        assert Stripped(cs)[1..] == Stripped(cs[1..]);
        if Find(cs[0]).Some? && cs[0] != Pad {
          SpacesIgnored(Push(w, Find(cs[0]).value), if bits + 6 < 8 then bits + 6 else bits + 6 - 8, cs[1..]);
        }
      }
    }
  }

  /** The values up to the end or to the first equals sign; they have six bits but for the 65 of a zero byte. */
  datatype Symbols = Symbols(vs: seq<bv8>, padded: bool)

  function Values(cs: seq<bv8>): (r: Option<Symbols>)
    ensures r.Some? ==> |r.value.vs| <= |cs|
  {
    if cs == [] then Some(Symbols([], false))
    else if cs[0] == Pad then Some(Symbols([], true))
    else if Find(cs[0]).None? then None
    else
      match Values(cs[1..])
      case None => None
      case Some(rest) => Some(Symbols([Find(cs[0]).value] + rest.vs, rest.padded))
  }

  function High(a: bv8, b: bv8): bv8 { (a << 2) | (b >> 4) }
  function Mid(b: bv8, c: bv8): bv8 { (b << 4) | (c >> 2) }
  function Low(c: bv8, d: bv8): bv8 { (c << 6) | d }

  predicate LowBitsSet(v: bv8) {
    v & 0x03 != 0
  }

  /** Four values make three bytes; two or three that are left over make one or two. */
  function Bytes(vs: seq<bv8>): seq<bv8> {
    (if |vs| > 1 then [High(vs[0], vs[1])] else [])
    + (if |vs| > 2 then [Mid(vs[1], vs[2])] else [])
    + (if |vs| > 3 then [Low(vs[2], vs[3])] else [])
    + (if |vs| > 4 then Bytes(vs[4..]) else [])
  }

  /** Plain text has no white space. */
  predicate Plain(cs: seq<bv8>) {
    forall i | 0 <= i < |cs| :: !IsSpace(cs[i])
  }

  /** Padding is refused behind a value whose two low bits are set. */
  function Meaning(last: bv8, cs: seq<bv8>): Option<seq<bv8>> {
    match Values(cs)
    case None => None
    case Some(s) =>
      if s.padded && LowBitsSet(if s.vs == [] then last else s.vs[|s.vs| - 1]) then None else Some(Bytes(s.vs))
  }

  function Prepend(b: bv8, r: Option<seq<bv8>>): Option<seq<bv8>> {
    match r
    case None => None
    case Some(rest) => Some([b] + rest)
  }

  lemma ValuesStep(w: bv32, bits: bv8, cs: seq<bv8>)
    requires bits < 8 && Plain(cs) && Values(cs).Some? && Values(cs).value.vs != []
    ensures var v := Values(cs).value.vs[0]; var w' := Push(w, v);
      && Plain(cs[1..]) && Values(cs[1..]) == Some(Symbols(Values(cs).value.vs[1..], Values(cs).value.padded))
      && Decoded(w, bits, cs) ==
         if bits + 6 < 8 then Decoded(w', bits + 6, cs[1..])
         else Prepend(Taken(w', bits + 6), Decoded(w', bits + 6 - 8, cs[1..]))
  {
    hide IsSpace, Find, Push, Taken, Decoded;
    DecodedStep(w, bits, cs);
  }

  lemma DecodedStep(w: bv32, bits: bv8, cs: seq<bv8>)
    requires bits < 8 && cs != [] && !IsSpace(cs[0]) && cs[0] != Pad && Find(cs[0]).Some?
    ensures var w' := Push(w, Find(cs[0]).value);
      Decoded(w, bits, cs) ==
        if bits + 6 < 8 then Decoded(w', bits + 6, cs[1..])
        else Prepend(Taken(w', bits + 6), Decoded(w', bits + 6 - 8, cs[1..]))
  {
    hide IsSpace, Find, Push, Taken;
  }

  lemma ValuesEnd(w: bv32, bits: bv8, cs: seq<bv8>)
    requires bits < 8 && Plain(cs) && Values(cs).Some? && Values(cs).value.vs == []
    ensures Decoded(w, bits, cs) == if Values(cs).value.padded && w & 0x03 != 0 then None else Some([])
  {
    hide Taken, Push;
    LowBits(w);
  }

  lemma LowBits(w: bv32)
    ensures (w << 6) & 0xff == 0 <==> w & 0x03 == 0
    ensures LowBitsSet((w & 0x03) as bv8) <==> w & 0x03 != 0
  {
  }

  lemma {:induction false} NoValues(w: bv32, bits: bv8, cs: seq<bv8>)
    requires bits < 8 && Plain(cs) && Values(cs).None?
    ensures Decoded(w, bits, cs).None?
    decreases |cs|
  {
    hide IsSpace, Find, Push, Taken, Decoded;
    if Find(cs[0]).None? {
      Refused(w, bits, cs);
    } else {
      DecodedStep(w, bits, cs);
      NoValues(Push(w, Find(cs[0]).value), if bits + 6 < 8 then bits + 6 else bits + 6 - 8, cs[1..]);
    }
  }

  lemma Refused(w: bv32, bits: bv8, cs: seq<bv8>)
    requires bits < 8 && cs != [] && !IsSpace(cs[0]) && Find(cs[0]).None?
    ensures Decoded(w, bits, cs).None?
  {
  }

  lemma TakenFrom(w: bv32, a: bv8, b: bv8, c: bv8, d: bv8)
    ensures Taken(Push(Push(w, a), b), 12) == High(a, b)
    ensures Taken(Push(Push(Push(w, a), b), c), 10) == Mid(b, c)
    ensures Taken(Push(Push(Push(Push(w, a), b), c), d), 8) == Low(c, d)
  {
  }

  lemma PushLow(w: bv32, v: bv8)
    ensures Push(w, v) & 0x03 == (v & 0x03) as bv32
    ensures Push(w, v) & 0x03 != 0 <==> LowBitsSet(v)
  {
  }

  lemma MeaningOf(last: bv8, cs: seq<bv8>, s: Symbols)
    requires Values(cs) == Some(s)
    ensures Meaning(last, cs) ==
      if s.padded && LowBitsSet(if s.vs == [] then last else s.vs[|s.vs| - 1]) then None else Some(Bytes(s.vs))
  {
    hide Values, LowBitsSet, Bytes;
  }

  lemma FewBytes(vs: seq<bv8>)
    requires |vs| <= 1
    ensures Bytes(vs) == []
  {
  }

  lemma NoValue(w: bv32, cs: seq<bv8>)
    requires Plain(cs) && Values(cs).Some? && Values(cs).value.vs == []
    ensures Decoded(w, 0, cs) == Meaning((w & 0x03) as bv8, cs)
  {
    hide Decoded, Values, Plain, Meaning, Bytes, LowBitsSet;
    MeaningOf((w & 0x03) as bv8, cs, Values(cs).value);
    FewBytes([]);
    LowBits(w);
    ValuesEnd(w, 0, cs);
  }

  lemma OneValue(w: bv32, cs: seq<bv8>)
    requires Plain(cs) && Values(cs).Some? && |Values(cs).value.vs| == 1
    ensures Decoded(w, 0, cs) == Meaning((w & 0x03) as bv8, cs)
  {
    hide Decoded, Values, Plain, Meaning, Bytes, LowBitsSet, Push, Taken;
    var vs := Values(cs).value.vs;
    MeaningOf((w & 0x03) as bv8, cs, Values(cs).value);
    FewBytes(vs);
    ValuesStep(w, 0, cs);
    ValuesEnd(Push(w, vs[0]), 6, cs[1..]);
    PushLow(w, vs[0]);
  }

  lemma TwoValues(w: bv32, cs: seq<bv8>)
    requires Plain(cs) && Values(cs).Some? && |Values(cs).value.vs| == 2
    ensures Decoded(w, 0, cs) == Meaning((w & 0x03) as bv8, cs)
  {
    hide Decoded, Values, Push, Taken, Plain, High, Mid, Low, LowBitsSet;
    var vs := Values(cs).value.vs;
    var w1 := Push(w, vs[0]);
    ValuesStep(w, 0, cs);
    ValuesStep(w1, 6, cs[1..]);
    ValuesEnd(Push(w1, vs[1]), 4, cs[1..][1..]);
    PushLow(w1, vs[1]);
    TakenFrom(w, vs[0], vs[1], 0, 0);
    assert Bytes(vs) == [High(vs[0], vs[1])] + [];
  }

  lemma ThreeValues(w: bv32, cs: seq<bv8>)
    requires Plain(cs) && Values(cs).Some? && |Values(cs).value.vs| == 3
    ensures Decoded(w, 0, cs) == Meaning((w & 0x03) as bv8, cs)
  {
    hide Decoded, Values, Push, Taken, Plain, High, Mid, Low, LowBitsSet;
    var vs := Values(cs).value.vs;
    var w1 := Push(w, vs[0]);
    var w2 := Push(w1, vs[1]);
    ValuesStep(w, 0, cs);
    ValuesStep(w1, 6, cs[1..]);
    ValuesStep(w2, 4, cs[1..][1..]);
    ValuesEnd(Push(w2, vs[2]), 2, cs[1..][1..][1..]);
    PushLow(w2, vs[2]);
    TakenFrom(w, vs[0], vs[1], vs[2], 0);
    assert Bytes(vs) == [High(vs[0], vs[1])] + ([Mid(vs[1], vs[2])] + []);
  }

  lemma FourValues(w: bv32, cs: seq<bv8>) returns (w': bv32, more: seq<bv8>)
    requires Plain(cs) && Values(cs).Some? && |Values(cs).value.vs| >= 4
    ensures var vs := Values(cs).value.vs;
      && |more| < |cs| && Plain(more) && Values(more) == Some(Symbols(vs[4..], Values(cs).value.padded))
      && (w' & 0x03) as bv8 == vs[3] & 0x03
      && Decoded(w, 0, cs) == Prepend(High(vs[0], vs[1]),
           Prepend(Mid(vs[1], vs[2]), Prepend(Low(vs[2], vs[3]), Decoded(w', 0, more))))
  {
    hide Decoded, Values, Push, Taken, Plain, High, Mid, Low, LowBitsSet;
    var vs := Values(cs).value.vs;
    var w1 := Push(w, vs[0]);
    var w2 := Push(w1, vs[1]);
    var w3 := Push(w2, vs[2]);
    w' := Push(w3, vs[3]);
    more := cs[1..][1..][1..][1..];
    ValuesStep(w, 0, cs);
    ValuesStep(w1, 6, cs[1..]);
    ValuesStep(w2, 4, cs[1..][1..]);
    ValuesStep(w3, 2, cs[1..][1..][1..]);
    PushLow(w3, vs[3]);
    TakenFrom(w, vs[0], vs[1], vs[2], vs[3]);
    assert vs[1..][1..][1..][1..] == vs[4..];
  }

  lemma NoMeaning(last: bv8, cs: seq<bv8>)
    requires Values(cs).None?
    ensures Meaning(last, cs).None?
  {
  }

  lemma BytesStep(vs: seq<bv8>)
    requires |vs| >= 4
    ensures Bytes(vs) == [High(vs[0], vs[1])] + ([Mid(vs[1], vs[2])] + ([Low(vs[2], vs[3])] + Bytes(vs[4..])))
  {
    hide High, Mid, Low;
    if |vs| == 4 { assert Bytes(vs[4..]) == []; }
    Grouped([High(vs[0], vs[1])], [Mid(vs[1], vs[2])], [Low(vs[2], vs[3])], Bytes(vs[4..]));
  }

  lemma Grouped(a: seq<bv8>, b: seq<bv8>, c: seq<bv8>, d: seq<bv8>)
    ensures a + b + c + d == a + (b + (c + d))
  {
  }

  /** Of the wrapping accumulator only the bits left over ever matter. */
  lemma {:induction false} PlainMeans(w: bv32, cs: seq<bv8>)
    requires Plain(cs)
    ensures Decoded(w, 0, cs) == Meaning((w & 0x03) as bv8, cs)
    decreases |cs|
  {
    hide Decoded, Values, Plain, Meaning, Prepend, High, Mid, Low, LowBitsSet;
    match Values(cs)
    case None => NoValues(w, 0, cs); NoMeaning((w & 0x03) as bv8, cs);
    case Some(s) =>
      if s.vs == [] {
        NoValue(w, cs);
      } else if |s.vs| == 1 {
        OneValue(w, cs);
      } else if |s.vs| == 2 {
        TwoValues(w, cs);
      } else if |s.vs| == 3 {
        ThreeValues(w, cs);
      } else {
        var w', more := FourValues(w, cs);
        PlainMeans(w', more);
        MeaningStep((w & 0x03) as bv8, cs, (w' & 0x03) as bv8, more);
      }
  }

  /** What any input is decoded to. */
  lemma DecodedMeans(cs: seq<bv8>)
    ensures Decoded(0, 0, cs) == Meaning(0, Stripped(cs))
  {
    hide Decoded, Meaning, Stripped;
    var w: bv32 := 0;
    SpacesIgnored(w, 0, cs);
    StrippedPlain(cs);
    PlainMeans(w, Stripped(cs));
    assert (w & 0x03) as bv8 == 0;
  }

  lemma StrippedPlain(cs: seq<bv8>)
    ensures Plain(Stripped(cs))
  {
  }

  lemma LowBitsOnly(v: bv8)
    ensures LowBitsSet(v & 0x03) <==> LowBitsSet(v)
  {
  }

  lemma MeaningStep(last: bv8, cs: seq<bv8>, last': bv8, more: seq<bv8>)
    requires Values(cs).Some? && |Values(cs).value.vs| >= 4
    requires var vs := Values(cs).value.vs;
      Values(more) == Some(Symbols(vs[4..], Values(cs).value.padded)) && last' == vs[3] & 0x03
    ensures var vs := Values(cs).value.vs;
      Meaning(last, cs) == Prepend(High(vs[0], vs[1]),
        Prepend(Mid(vs[1], vs[2]), Prepend(Low(vs[2], vs[3]), Meaning(last', more))))
  {
    hide Values, Bytes, High, Mid, Low, LowBitsSet;
    var vs := Values(cs).value.vs;
    BytesStep(vs);
    LowBitsOnly(vs[3]);
    if |vs| > 4 { assert vs[4..][|vs| - 5] == vs[|vs| - 1]; }
  }

  // ---- the round trip

  lemma {:induction false} EncodedPlain(s: seq<bv8>)
    ensures Plain(Encoded(s))
  {
    hide Letter, IsSpace, First, Second, Third, Fourth;
    if s != [] {
      GroupPlain(s);
      if |s| > 3 { EncodedPlain(s[3..]); }
    }
  }

  lemma GroupPlain(s: seq<bv8>)
    requires s != []
    ensures Plain(Group(s))
  {
    hide Letter, IsSpace, First, Second, Third, Fourth;
    var a, b, c := s[0], if |s| > 1 then s[1] else 0, if |s| > 2 then s[2] else 0;
    SixBits(a, b);
    SixBits(b, c);
    SixBits(c, c);
    FindLetter(First(a));
    FindLetter(Second(a, b));
    FindLetter(Third(b, c));
    FindLetter(Fourth(c));
    FindLetter(64);
    assert Letter(64) == Pad;
  }

  lemma LetterFirst(v: bv8, more: seq<bv8>)
    requires v < 64 && Values(more).Some?
    ensures Values([Letter(v)] + more) == Some(Symbols([v] + Values(more).value.vs, Values(more).value.padded))
  {
    hide Letter;
    FindLetter(v);
    assert ([Letter(v)] + more)[1..] == more;
  }

  lemma PadFirst(more: seq<bv8>)
    ensures Values([Pad] + more) == Some(Symbols([], true))
  {
  }

  lemma GroupJoined(s: seq<bv8>, more: seq<bv8>)
    requires s != []
    ensures Group(s) + more == [Group(s)[0]] + ([Group(s)[1]] + ([Group(s)[2]] + ([Group(s)[3]] + more)))
  {
    hide Letter, Group;
  }

  /** The values of a group are its four times six bits, two or three of them when the group is the last. */
  lemma GroupValues(s: seq<bv8>, more: seq<bv8>)
    requires s != [] && Values(more).Some?
    ensures var a, b, c := s[0], if |s| > 1 then s[1] else 0, if |s| > 2 then s[2] else 0;
      Values(Group(s) + more) ==
        if |s| == 1 then Some(Symbols([First(a)] + ([Second(a, b)] + []), true))
        else if |s| == 2 then Some(Symbols([First(a)] + ([Second(a, b)] + ([Third(b, c)] + [])), true))
        else
          var rest := Values(more).value;
          Some(Symbols([First(a)] + ([Second(a, b)] + ([Third(b, c)] + ([Fourth(c)] + rest.vs))), rest.padded))
  {
    hide Letter, First, Second, Third, Fourth, Values;
    var a, b, c := s[0], if |s| > 1 then s[1] else 0, if |s| > 2 then s[2] else 0;
    SixBits(a, b);
    SixBits(b, c);
    SixBits(c, c);
    var m3 := if |s| > 2 then [Letter(Fourth(c))] + more else [Pad] + more;
    var m2 := if |s| > 1 then [Letter(Third(b, c))] + m3 else [Pad] + m3;
    var m1 := [Letter(Second(a, b))] + m2;
    if |s| > 2 { LetterFirst(Fourth(c), more); } else { PadFirst(more); }
    if |s| > 1 { LetterFirst(Third(b, c), m3); } else { PadFirst(m3); }
    LetterFirst(Second(a, b), m2);
    LetterFirst(First(a), m1);
    GroupJoined(s, more);
  }

  lemma Rejoined(a: bv8, b: bv8, c: bv8)
    ensures High(First(a), Second(a, b)) == a && Mid(Second(a, b), Third(b, c)) == b && Low(Third(b, c), Fourth(c)) == c
    ensures !LowBitsSet(Second(a, 0)) && !LowBitsSet(Third(b, 0))
  {
  }

  lemma ShortMeans(last: bv8, s: seq<bv8>)
    requires 0 < |s| <= 3
    ensures Meaning(last, Group(s)) == Some(s)
  {
    hide Letter, First, Second, Third, Fourth, Values, High, Mid, Low, LowBitsSet, Group;
    NoValuesLeft();
    GroupValues(s, []);
    assert Group(s) + [] == Group(s);
    Rejoined(s[0], if |s| > 1 then s[1] else 0, if |s| > 2 then s[2] else 0);
    var vs := Values(Group(s)).value.vs;
    assert Bytes(vs) == s;
  }

  lemma NoValuesLeft()
    ensures Values([]) == Some(Symbols([], false))
  {
  }

  /** Whatever the last value before it was, an encoding means what has been encoded. */
  lemma {:induction false} EncodedMeans(last: bv8, s: seq<bv8>)
    ensures Values(Encoded(s)).Some? && Meaning(last, Encoded(s)) == Some(s)
    decreases |s|
  {
    hide Letter, First, Second, Third, Fourth, Values, High, Mid, Low, LowBitsSet, Group, Bytes, Meaning;
    if s == [] {
      NothingMeans(last);
    } else if |s| <= 3 {
      ShortMeans(last, s);
      NoValuesLeft();
      GroupValues(s, []);
      assert Group(s) + [] == Group(s);
    } else {
      EncodedMeans(Fourth(s[2]) & 0x03, s[3..]);
      LongMeans(last, s, Encoded(s[3..]));
    }
  }

  lemma LongMeans(last: bv8, s: seq<bv8>, more: seq<bv8>)
    requires |s| > 3 && Values(more).Some? && Meaning(Fourth(s[2]) & 0x03, more) == Some(s[3..])
    ensures Values(Group(s) + more).Some? && Meaning(last, Group(s) + more) == Some(s)
  {
    hide Letter, First, Second, Third, Fourth, Values, High, Mid, Low, LowBitsSet, Group, Bytes, Meaning;
    GroupValues(s, more);
    var vs := Values(Group(s) + more).value.vs;
    assert vs[4..] == Values(more).value.vs;
    MeaningStep(last, Group(s) + more, Fourth(s[2]) & 0x03, more);
    Rejoined(s[0], s[1], s[2]);
    assert s == [s[0]] + ([s[1]] + ([s[2]] + s[3..]));
  }

  lemma NothingMeans(last: bv8)
    ensures Values([]).Some? && Meaning(last, []) == Some([])
  {
    assert Bytes([]) == [];
  }

  /** An encoding is decoded, wherever it is broken by white space. */
  lemma RoundTrip(s: seq<bv8>, cs: seq<bv8>)
    requires Stripped(cs) == Encoded(s)
    ensures Decoded(0, 0, cs) == Some(s)
  {
    hide Encoded, Decoded, Meaning, Stripped;
    DecodedMeans(cs);
    EncodedMeans(0, s);
  }

  // ---- the inputs that are encodings

  predicate IsLetter(c: bv8) {
    Find(c).Some? && Find(c).value < 64
  }

  function Sextet(c: bv8): (v: bv8)
    requires IsLetter(c)
    ensures v < 64
  {
    Find(c).value
  }

  /** Groups of four letters; the last may end in one or two equals signs, and then the bits that are not used of the
      letter before them are zero. */
  predicate Canonical(cs: seq<bv8>)
    decreases |cs|
  {
    cs == [] ||
    (|cs| >= 4 && IsLetter(cs[0]) && IsLetter(cs[1]) &&
     if |cs| == 4 && cs[2] == Pad then cs[3] == Pad && Sextet(cs[1]) & 0x0f == 0
     else if |cs| == 4 && cs[3] == Pad then IsLetter(cs[2]) && Sextet(cs[2]) & 0x03 == 0
     else IsLetter(cs[2]) && IsLetter(cs[3]) && Canonical(cs[4..]))
  }

  lemma LetterIs(v: bv8)
    requires v < 64
    ensures IsLetter(Letter(v)) && Sextet(Letter(v)) == v && Letter(v) != Pad
  {
    FindLetter(v);
  }

  lemma UnusedBits(a: bv8, b: bv8)
    ensures Second(a, 0) & 0x0f == 0 && Third(b, 0) & 0x03 == 0
  {
  }

  lemma {:induction false} EncodedCanonical(s: seq<bv8>)
    ensures Canonical(Encoded(s))
    decreases |s|
  {
    hide Letter, First, Second, Third, Fourth, IsLetter, Sextet;
    if s != [] {
      var a, b, c := s[0], if |s| > 1 then s[1] else 0, if |s| > 2 then s[2] else 0;
      SixBits(a, b);
      SixBits(b, c);
      SixBits(c, c);
      LetterIs(First(a));
      LetterIs(Second(a, b));
      LetterIs(Third(b, c));
      LetterIs(Fourth(c));
      UnusedBits(a, b);
      if |s| > 3 {
        EncodedCanonical(s[3..]);
        assert Encoded(s)[4..] == Encoded(s[3..]);
      } else if |s| == 3 {
        assert Encoded(s)[4..] == [];
      }
    }
  }

  lemma Split(a: bv8, b: bv8, c: bv8, d: bv8)
    requires a < 64 && b < 64 && c < 64 && d < 64
    ensures First(High(a, b)) == a && Second(High(a, b), Mid(b, c)) == b
    ensures Third(Mid(b, c), Low(c, d)) == c && Fourth(Low(c, d)) == d
    ensures b & 0x0f == 0 ==> Second(High(a, b), 0) == b
    ensures c & 0x03 == 0 ==> Third(Mid(b, c), 0) == c
  {
  }

  lemma LetterOf(c: bv8)
    requires IsLetter(c)
    ensures Letter(Sextet(c)) == c
  {
  }

  lemma EncodedMore(s: seq<bv8>, rest: seq<bv8>)
    requires |s| == 3
    ensures Encoded(s + rest) == Group(s) + Encoded(rest)
  {
    hide Letter, First, Second, Third, Fourth;
    assert (s + rest)[3..] == rest;
    assert Group(s + rest) == Group(s);
    if rest == [] { assert Encoded(rest) == []; }
  }

  lemma EncodedOne(a: bv8, b: bv8)
    requires a < 64 && b < 64 && b & 0x0f == 0
    ensures Encoded([High(a, b)]) == [Letter(a), Letter(b), Pad, Pad]
  {
    hide Letter, First, Second, Third, Fourth, High, Mid, Low;
    Split(a, b, 0, 0);
  }

  lemma EncodedTwo(a: bv8, b: bv8, c: bv8)
    requires a < 64 && b < 64 && c < 64 && c & 0x03 == 0
    ensures Encoded([High(a, b), Mid(b, c)]) == [Letter(a), Letter(b), Letter(c), Pad]
  {
    hide Letter, First, Second, Third, Fourth, High, Mid, Low;
    Split(a, b, c, 0);
  }

  lemma EncodedThree(a: bv8, b: bv8, c: bv8, d: bv8, rest: seq<bv8>)
    requires a < 64 && b < 64 && c < 64 && d < 64
    ensures Encoded([High(a, b), Mid(b, c), Low(c, d)] + rest) ==
      [Letter(a), Letter(b), Letter(c), Letter(d)] + Encoded(rest)
  {
    hide Letter, First, Second, Third, Fourth, High, Mid, Low;
    Split(a, b, c, d);
    EncodedMore([High(a, b), Mid(b, c), Low(c, d)], rest);
  }

  lemma {:induction false} CanonicalEncoding(cs: seq<bv8>) returns (s: seq<bv8>)
    requires Canonical(cs)
    ensures Encoded(s) == cs && (cs != [] ==> s != [])
    decreases |cs|
  {
    hide Encoded, Letter, High, Mid, Low, IsLetter, Sextet;
    if cs == [] {
      s := [];
      NothingEncoded();
    } else {
      var a, b := Sextet(cs[0]), Sextet(cs[1]);
      LetterOf(cs[0]);
      LetterOf(cs[1]);
      if |cs| == 4 && cs[2] == Pad {
        EncodedOne(a, b);
        s := [High(a, b)];
      } else if |cs| == 4 && cs[3] == Pad {
        LetterOf(cs[2]);
        EncodedTwo(a, b, Sextet(cs[2]));
        s := [High(a, b), Mid(b, Sextet(cs[2]))];
      } else {
        var c, d := Sextet(cs[2]), Sextet(cs[3]);
        LetterOf(cs[2]);
        LetterOf(cs[3]);
        var rest := CanonicalEncoding(cs[4..]);
        s := [High(a, b), Mid(b, c), Low(c, d)] + rest;
        EncodedThree(a, b, c, d, rest);
        assert cs == [cs[0], cs[1], cs[2], cs[3]] + cs[4..];
      }
    }
  }

  lemma NothingEncoded()
    ensures Encoded([]) == []
  {
  }

  /** An input that is accepted is the encoding of the result exactly when it is canonical. */
  lemma ReencodedIff(cs: seq<bv8>, s: seq<bv8>)
    requires Decoded(0, 0, cs) == Some(s)
    ensures Encoded(s) == cs <==> Canonical(cs)
  {
    hide Encoded, Decoded, Canonical;
    EncodedCanonical(s);
    if Canonical(cs) {
      var s' := CanonicalEncoding(cs);
      EncodedPlain(s');
      PlainStripped(cs);
      RoundTrip(s', cs);
    }
  }

  lemma {:induction false} PlainStripped(cs: seq<bv8>)
    requires Plain(cs)
    ensures Stripped(cs) == cs
  {
    hide IsSpace;
    if cs != [] { PlainStripped(cs[1..]); }
  }

  /** Four unused bits may be set without being noticed. */
  lemma NotCanonical(cs: seq<bv8>)
    requires cs == [0x51, 0x55, 0x3d, 0x3d]
    ensures Decoded(0, 0, cs) == Some([0x41]) && !Canonical(cs) && Encoded([0x41]) == [0x51, 0x51, 0x3d, 0x3d]
  {
    hide Decoded, Encoded, Push, Taken;
    var w: bv32 := 0;
    var w1 := Push(w, 16);
    var w2 := Push(w1, 20);
    DecodedStep(w, 0, cs);
    DecodedStep(w1, 6, cs[1..]);
    DecodedCases(w2, 4, cs[1..][1..]);
    SixZeroBits(w2);
    var one: seq<bv8> := [0x41];
    assert Decoded(w1, 6, cs[1..]) == Some(one + []) && one + [] == one;
    OneByte();
  }

  lemma SixZeroBits(w: bv32)
    requires w == Push(Push(0, 16), 20)
    ensures (w << 6) & 0xff == 0 && Taken(w, 12) == 0x41
  {
  }

  lemma OneByte()
    ensures Encoded([0x41]) == [0x51, 0x51, 0x3d, 0x3d]
  {
  }

  // ---- the methods

  /** add_char; end is where the buffer ends. */
  method AddChar(out: array<bv8>, pos: nat, ch: bv8, done: bool, end: nat) returns (full: bool)
    requires end <= out.Length && ch <= 64
    modifies out
    ensures full == (pos >= end)
    ensures !full ==> out[pos] == if done then Pad else Letter(ch)
    ensures forall k | 0 <= k < out.Length && (full || k != pos) :: out[k] == old(out[k])
  {
    if pos >= end {
      return true;
    }
    out[pos] := if done then Letter(64) else Letter(ch);
    full := false;
  }

  /** One round of the loop of b64_encode, from byte i on. */
  method EncodeRound(out: array<bv8>, at: nat, end: nat, source: array<bv8>, i: nat, n: nat)
    returns (full: bool, i': nat, done: bool)
    requires at <= end <= out.Length && out != source && i < n <= source.Length
    modifies out
    ensures full == (at + 4 > end) && (!full ==> done == (i' == n) && i' == if i + 3 < n then i + 3 else n)
    ensures !full ==> out[at..at + 4] == Group(source[i..n])
    ensures forall k | 0 <= k < at || at + 4 <= k < out.Length || end <= k < out.Length :: out[k] == old(out[k])
  {
    hide Letter, First, Second, Third, Fourth, Group;
    ghost var s := source[i..n];
    i', done := i, false;
    var last := source[i'];
    i' := i' + 1;
    var next := if i' >= n then 0 else source[i'];
    SixBits(last, next);
    full := AddChar(out, at, First(last), done, end);
    if full { return; }
    var enc := Second(last, next);
    full := AddChar(out, at + 1, enc, done, end);
    if full { return; }
    if i' == n { done := true; }
    if !done {
      last := source[i'];
      i' := i' + 1;
      next := if i' == n then 0 else source[i'];
      SixBits(last, next);
      enc := Third(last, next);
    }
    full := AddChar(out, at + 2, enc, done, end);
    if full { return; }
    if i' == n { done := true; }
    if !done {
      last := source[i'];
      i' := i' + 1;
      SixBits(last, last);
      enc := Fourth(last);
    }
    full := AddChar(out, at + 3, enc, done, end);
    if full { return; }
    if i' == n { done := true; }
    GroupIs(s);
    FourBytes(out, at, Group(s));
  }

  lemma GroupIs(s: seq<bv8>)
    requires s != []
    ensures var b, c := if |s| > 1 then s[1] else 0, if |s| > 2 then s[2] else 0;
      && First(s[0]) < 64 && Second(s[0], b) < 64 && Third(b, c) < 64 && Fourth(c) < 64
      && Group(s)[0] == Letter(First(s[0])) && Group(s)[1] == Letter(Second(s[0], b))
      && Group(s)[2] == (if |s| > 1 then Letter(Third(b, c)) else Pad)
      && Group(s)[3] == if |s| > 2 then Letter(Fourth(c)) else Pad
  {
    hide Letter, First, Second, Third, Fourth;
    var b, c := if |s| > 1 then s[1] else 0, if |s| > 2 then s[2] else 0;
    SixBits(s[0], b);
    SixBits(b, c);
    SixBits(c, c);
  }

  lemma FourBytes(out: array<bv8>, at: nat, g: seq<bv8>)
    requires at + 4 <= out.Length && |g| == 4
    requires out[at] == g[0] && out[at + 1] == g[1] && out[at + 2] == g[2] && out[at + 3] == g[3]
    ensures out[at..at + 4] == g
  {
  }

  /** The first zero byte. */
  function Length(s: seq<bv8>): (n: nat)
    requires 0 in s
    ensures n < |s| && s[n] == 0 && forall i | 0 <= i < n :: s[i] != 0
  {
    if s[0] == 0 then 0 else assert 0 in s[1..]; 1 + Length(s[1..])
  }

  lemma EncodedStep(s: seq<bv8>, i: nat)
    requires i < |s|
    ensures Encoded(s[i..]) == Group(s[i..]) + Encoded(s[if i + 3 < |s| then i + 3 else |s|..])
  {
    hide Letter;
    var t := s[i..];
    if |t| > 3 {
      assert t[3..] == s[i + 3..];
    } else {
      assert s[|s|..] == [];
    }
  }

  /** The loop of b64_encode. */
  method EncodeInto(out: array<bv8>, end: nat, source: array<bv8>, slen: nat) returns (at: int)
    requires end <= out.Length && slen <= source.Length && out != source
    modifies out
    ensures var s := source[..slen];
      if |Encoded(s)| > end then at == -1
      else at == |Encoded(s)| && out[..at] == Encoded(s) && (at < end ==> out[at] == 0)
    ensures forall k | end <= k < out.Length :: out[k] == old(out[k])
  {
    hide Letter, Group, Encoded;
    ghost var s := source[..slen];
    at := 0;
    var inp, done := 0, false;
    EncodedEmpty();
    while inp < slen && !done
      invariant 0 <= inp <= slen && 0 <= at <= end && (done ==> inp == slen)
      invariant out[..at] + Encoded(s[inp..]) == Encoded(s)
      invariant forall k | end <= k < out.Length :: out[k] == old(out[k])
      decreases slen - inp
    {
      EncodedStep(s, inp);
      assert source[inp..slen] == s[inp..];
      ghost var before, group, rest := out[..at], Group(s[inp..]),
          Encoded(s[if inp + 3 < slen then inp + 3 else slen..]);
      var full;
      full, inp, done := EncodeRound(out, at, end, source, inp, slen);
      if full {
        assert |Encoded(s)| > end;
        return -1;
      }
      at := at + 4;
      assert out[..at] == before + group;
      Regroup(before, group, rest);
    }
    assert s[inp..] == [];
    assert out[..at] == Encoded(s);
    if at < end {
      out[at] := 0;
    }
    assert out[..at] == Encoded(s);
  }

  /** b64_encode; a source that is also the target is encoded by way of a second buffer. */
  method B64Encode(target: array<bv8>, tlen: nat, source: array<bv8>, size: nat) returns (ret: int)
    requires tlen <= target.Length && size <= source.Length
    requires size == 0 ==> 0 in source[..]
    modifies target
    ensures var s := if size == 0 then old(source[..])[..Length(old(source[..]))] else old(source[..size]);
      if |Encoded(s)| > tlen then ret == -1
      else ret == |Encoded(s)| && target[..ret] == Encoded(s) && (ret < tlen ==> target[ret] == 0)
    ensures forall k | tlen <= k < target.Length :: target[k] == old(target[k])
  {
    hide Encoded;
    var slen := if size == 0 then Length(source[..]) else size;
    assert source[..slen] == if size == 0 then source[..][..Length(source[..])] else source[..size];
    if source == target {
      var tmpbuf := new bv8[tlen];
      ret := EncodeInto(tmpbuf, tlen, source, slen);
      if ret >= 0 {
        forall k | 0 <= k < tlen {
          target[k] := tmpbuf[k];
        }
        assert target[..ret] == tmpbuf[..ret];
      }
    } else {
      ret := EncodeInto(target, tlen, source, slen);
    }
  }

  lemma EncodedEmpty()
    ensures Encoded([]) == []
  {
  }

  /** b64_decode; the result is ended by a zero, for which there must be room. It may be written over the source. */
  method B64Decode(target: array<bv8>, tlen: nat, source: array<bv8>, size: nat) returns (ret: int)
    requires 0 < tlen <= target.Length && size <= source.Length
    requires size == 0 ==> 0 in source[..]
    modifies target
    ensures var d := Decoded(0, 0, if size == 0 then old(source[..])[..Length(old(source[..]))]
      else old(source[..size]));
      if d.None? || |d.value| >= tlen then ret == -1
      else ret == |d.value| && target[..ret] == d.value && target[ret] == 0
    ensures forall k | tlen <= k < target.Length :: target[k] == old(target[k])
  {
    hide IsSpace, Find, Taken, Push, Decoded;
    var slen := if size == 0 then Length(source[..]) else size;
    ghost var cs := source[..slen];
    assert cs == if size == 0 then source[..][..Length(source[..])] else source[..size];
    ghost var rest := Decoded(0, 0, cs);
    ghost var goal := rest;
    var bits: bv8, working: bv32 := 0, 0;
    var outp, inp := 0, 0;
    assert cs[0..] == cs;
    JoinedNothing(rest);
    assert target[..0] == [];
    while outp < tlen && inp < slen
      invariant 0 <= outp <= tlen && outp <= inp <= slen && bits < 8
      invariant rest == Decoded(working, bits, cs[inp..]) && goal == Joined(target[..outp], rest)
      invariant forall k | inp <= k < slen :: source[k] == cs[k]
      invariant forall k | tlen <= k < target.Length :: target[k] == old(target[k])
      decreases slen - inp
    {
      DecodedCases(working, bits, cs[inp..]);
      assert cs[inp..][1..] == cs[inp + 1..];
      if IsSpace(source[inp]) {
        inp := inp + 1;
        continue;
      }
      var i := Find(source[inp]);
      if i == None {
        return -1;
      }
      if source[inp] == Pad {
        if (working << 6) & 0xff != 0 {
          return -1;
        }
        rest := Some([]);
        break;
      }
      DecodedStep(working, bits, cs[inp..]);
      bits := bits + 6;
      working := Push(working, i.value);
      inp := inp + 1;
      if bits >= 8 {
        rest := Decoded(working, bits - 8, cs[inp..]);
        ghost var done := target[..outp];
        JoinedPrepend(done, Taken(working, bits), rest);
        target[outp] := Taken(working, bits);
        outp := outp + 1;
        assert target[..outp] == done + [Taken(working, bits)];
        bits := bits - 8;
      } else {
        rest := Decoded(working, bits, cs[inp..]);
      }
    }
    if outp == tlen {
      target[tlen - 1] := 0;
      return -1;
    }
    if inp == slen { NothingDecoded(working, bits); }
    ghost var d := target[..outp];
    target[outp] := 0;
    assert target[..outp] == d;
    ret := outp;
  }

  function Joined(done: seq<bv8>, r: Option<seq<bv8>>): Option<seq<bv8>> {
    match r
    case None => None
    case Some(rest) => Some(done + rest)
  }

  lemma JoinedNothing(r: Option<seq<bv8>>)
    ensures Joined([], r) == r
  {
    if r.Some? { assert [] + r.value == r.value; }
  }

  lemma JoinedPrepend(done: seq<bv8>, b: bv8, r: Option<seq<bv8>>)
    ensures Joined(done, Prepend(b, r)) == Joined(done + [b], r)
  {
    if r.Some? { assert done + ([b] + r.value) == done + [b] + r.value; }
  }

  lemma NothingDecoded(w: bv32, bits: bv8)
    requires bits < 8
    ensures Decoded(w, bits, []) == Some([])
  {
  }

  lemma DecodedCases(w: bv32, bits: bv8, cs: seq<bv8>)
    requires bits < 8 && cs != []
    ensures IsSpace(cs[0]) ==> Decoded(w, bits, cs) == Decoded(w, bits, cs[1..])
    ensures !IsSpace(cs[0]) && Find(cs[0]).None? ==> Decoded(w, bits, cs) == None
    ensures !IsSpace(cs[0]) && cs[0] == Pad ==> Decoded(w, bits, cs) == if (w << 6) & 0xff != 0 then None else Some([])
  {
    hide IsSpace, Taken, Push;
    FindLetter(64);
  }
}
