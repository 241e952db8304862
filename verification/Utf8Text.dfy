/** utf8_str_is_valid, utf8_normalize_str and utf8_replace_chars of encode/utf8.c. A C string is a buffer in which
    the first zero byte, at index n, ends the text; reading methods are given the text. */
module Utf8Text {
  import opened Utf8
  import opened Sequences

  // ---- text as code points

  function Encodings(cs: seq<bv32>): (s: seq<bv8>)
    ensures |cs| <= |s|
  {
    if cs == [] then [] else Encoding(cs[0]) + Encodings(cs[1..])
  }

  ghost predicate Codes(cs: seq<bv32>) {
    forall i | 0 <= i < |cs| :: cs[i] < 0x8000_0000
  }

  ghost predicate IsText(s: seq<bv8>) {
    exists cs :: Codes(cs) && Encodings(cs) == s
  }

  /** Text begins with a code point and goes on with text. */
  lemma TextTail(s: seq<bv8>)
    requires s != []
    ensures IsText(s) ==> Scanned(s).Char?
    ensures Scanned(s).Char? ==> 1 <= Scanned(s).len <= |s| && (IsText(s) <==> IsText(s[Scanned(s).len..]))
  {
    hide IsText, Encoding, Scanned;
    if IsText(s) {
      TextBegins(s);
    }
    if Scanned(s).Char? {
      ScannedEncoding(s);
      if IsText(s[Scanned(s).len..]) {
        TextBefore(s);
      }
    }
  }

  lemma TextBegins(s: seq<bv8>)
    requires s != [] && IsText(s)
    ensures Scanned(s).Char? && Scanned(s).len <= |s| && IsText(s[Scanned(s).len..])
  {
    hide Encoding, Scanned;
    var cs :| Codes(cs) && Encodings(cs) == s;
    EncodingScanned(cs[0], Encodings(cs[1..]));
    assert Codes(cs[1..]);
    assert s[Size(cs[0])..] == Encodings(cs[1..]);
  }

  lemma TextBefore(s: seq<bv8>)
    requires Scanned(s).Char? && Scanned(s).len <= |s| && IsText(s[Scanned(s).len..])
    ensures IsText(s)
  {
    hide Encoding, Scanned;
    ScannedEncoding(s);
    var Char(n, v) := Scanned(s);
    var ds :| Codes(ds) && Encodings(ds) == s[n..];
    EncodingsStep(v, ds);
    assert Codes([v] + ds) && s[..n] + s[n..] == s;
  }

  lemma EncodingsStep(c: bv32, cs: seq<bv32>)
    ensures Encodings([c] + cs) == Encoding(c) + Encodings(cs)
  {
    hide Encoding;
    assert ([c] + cs)[1..] == cs;
  }

  /** Text is the encoding of one sequence of code points only. */
  lemma {:induction false} TextUnique(cs: seq<bv32>, ds: seq<bv32>)
    requires Codes(cs) && Codes(ds) && Encodings(cs) == Encodings(ds)
    ensures cs == ds
  {
    hide Encoding, Scanned;
    if cs != [] && ds != [] {
      EncodingScanned(cs[0], Encodings(cs[1..]));
      EncodingScanned(ds[0], Encodings(ds[1..]));
      assert Encodings(cs)[Size(cs[0])..] == Encodings(cs[1..]) == Encodings(ds[1..]);
      TextUnique(cs[1..], ds[1..]);
      assert cs == [cs[0]] + cs[1..] && ds == [ds[0]] + ds[1..];
    }
  }

  /** utf8_str_is_valid */
  method StrIsValid(str: seq<bv8>) returns (valid: bool)
    ensures valid <==> IsText(str)
  {
    hide Scanned, Encoding;
    var at := 0;
    while at < |str|
      invariant 0 <= at <= |str|
      invariant IsText(str) <==> IsText(str[at..])
    {
      var len, val := GetC(str[at..]);
      TextTail(str[at..]);
      if len < 1 {
        return false;
      }
      assert str[at..][len..] == str[at + len..];
      at := at + len;
    }
    assert Codes([]) && Encodings([]) == str[at..];
    valid := true;
  }

  // ---- normalising

  /** What utf8_normalize_str replaces a byte sequence with. */
  datatype Step = Step(out: seq<bv8>, len: nat)

  function At(s: seq<bv8>, i: nat): bv8 {
    if i < |s| then s[i] else 0
  }

  /** The replacement for three bytes, if any. */
  function Replacement(a: bv8, b: bv8, c: bv8): (r: seq<seq<bv8>>)
    ensures |r| <= 1 && (|r| == 1 ==> |r[0]| <= 3)
  {
    if a == 0xe2 && b == 0x80 then
      if c == 0x82 || c == 0x83 then [[0x20]]
      else if 0x8b <= c <= 0x8d then [[]]
      else if 0x90 <= c <= 0x93 then [[0x2d]]
      else if c == 0x98 then [[0x60]]
      else if c == 0x99 || c == 0xb2 then [[0x27]]
      else if c == 0x9c || c == 0x9d then [[0x22]]
      else if c == 0xa6 then [[0x2e, 0x2e, 0x2e]]
      else []
    else if a == 0xe2 && b == 0x81 then
      if c == 0x83 then [[0x2d]] else if c == 0x84 then [[0x2f]] else []
    else if a == 0xe2 && b == 0x88 then
      if c == 0x92 then [[0x2d]] else []
    else if a == 0xef && b == 0xbb && c == 0xbf then [[]]
    else if a == 0xef && b == 0xbc && 0x81 <= c <= 0xbf then [[0x21 + (c - 0x81)]]
    else if a == 0xef && b == 0xbd && 0x80 <= c <= 0x9e then [[0x60 + (c - 0x80)]]
    else []
  }

  function Next(s: seq<bv8>): (r: Step)
    requires s != []
    ensures 1 <= r.len && |r.out| <= r.len
  {
    var rep := Replacement(s[0], At(s, 1), At(s, 2));
    if s[0] == 0xc2 && At(s, 1) == 0xa0 then Step([0x20], 2)
    else if |rep| == 1 then Step(rep[0], 3)
    else Step([s[0]], 1)
  }

  /** No replacement reads over the end. */
  lemma NextInside(s: seq<bv8>)
    requires s != []
    ensures Next(s).len <= |s|
  {
  }

  function Normalized(s: seq<bv8>): (r: seq<bv8>)
    ensures |r| <= |s|
    decreases |s|
  {
    if s == [] then []
    else
      NextInside(s);
      Next(s).out + Normalized(s[Next(s).len..])
  }

  /** The buffer holds the text s from position at on. */
  ghost predicate TextAt(str: array<bv8>, at: nat, s: seq<bv8>)
    reads str
  {
    at + |s| < str.Length && str[at..at + |s|] == s && str[at + |s|] == 0 && forall i | 0 <= i < |s| :: s[i] != 0
  }

  lemma TextBytes(str: array<bv8>, at: nat, s: seq<bv8>)
    requires TextAt(str, at, s)
    ensures at + |s| < str.Length && (str[at] == 0 <==> s == [])
    ensures str[at + |s|] == 0 && (s != [] ==> s[0] == str[at]) && forall i | 0 <= i < |s| :: s[i] != 0
    ensures forall k | 0 <= k <= |s| :: str[at + k] == At(s, k) && (str[at + k] == 0 <==> k == |s|)
  {
    forall k | 0 <= k < |s|
      ensures str[at + k] == s[k]
    {
      assert str[at..at + |s|][k] == s[k];
    }
  }

  /** The three-byte sequences that begin with E2. */
  method NormalizePunctuation(str: array<bv8>, src: nat, dest: nat, ghost s: seq<bv8>)
    returns (found: bool, src': nat, dest': nat)
    requires TextAt(str, src, s) && s != [] && dest <= src && str[src] == 0xe2
    modifies str
    ensures found == (|Replacement(s[0], At(s, 1), At(s, 2))| == 1)
    ensures if found then src' == src + 2 && dest' == dest + |Next(s).out| && str[dest..dest'] == Next(s).out
            else src' == src && dest' == dest && str[..] == old(str[..])
    ensures forall i | 0 <= i < dest || src' < i < str.Length :: str[i] == old(str[i])
  {
    hide TextAt;
    TextBytes(str, src, s);
    NextInside(s);
    found, src', dest' := true, src, dest;
    if str[src + 1] == 0x80 {
      if str[src + 2] == 0x82 || str[src + 2] == 0x83 {
        src', dest' := src + 2, dest + 1;
        str[dest] := 0x20;
        return;
      } else if str[src + 2] == 0x8b || str[src + 2] == 0x8c || str[src + 2] == 0x8d {
        src' := src + 2;
        return;
      } else if str[src + 2] == 0x90 || str[src + 2] == 0x91 || str[src + 2] == 0x92 || str[src + 2] == 0x93 {
        src', dest' := src + 2, dest + 1;
        str[dest] := 0x2d;
        return;
      } else if str[src + 2] == 0x98 {
        src', dest' := src + 2, dest + 1;
        str[dest] := 0x60;
        return;
      } else if str[src + 2] == 0x99 || str[src + 2] == 0xb2 {
        src', dest' := src + 2, dest + 1;
        str[dest] := 0x27;
        return;
      } else if str[src + 2] == 0x9c || str[src + 2] == 0x9d {
        src', dest' := src + 2, dest + 1;
        str[dest] := 0x22;
        return;
      } else if str[src + 2] == 0xa6 {
        src' := src + 2;
        for i := 0 to 3
          invariant dest' == dest + i && str[dest..dest'] == [0x2e, 0x2e, 0x2e][..i]
          invariant forall k | 0 <= k < dest || src + 2 < k < str.Length :: str[k] == old(str[k])
        {
          str[dest'] := 0x2e;
          dest' := dest' + 1;
        }
        return;
      }
    } else if str[src + 1] == 0x81 {
      if str[src + 2] == 0x83 {
        src', dest' := src + 2, dest + 1;
        str[dest] := 0x2d;
        return;
      } else if str[src + 2] == 0x84 {
        src', dest' := src + 2, dest + 1;
        str[dest] := 0x2f;
        return;
      }
    } else if str[src + 1] == 0x88 {
      if str[src + 2] == 0x92 {
        src', dest' := src + 2, dest + 1;
        str[dest] := 0x2d;
        return;
      }
    }
    found := false;
  }

  /** One round of the loop of utf8_normalize_str: what it writes at dest, and what it leaves of the text. */
  method NormalizeAt(str: array<bv8>, src: nat, dest: nat, ghost s: seq<bv8>) returns (src': nat, dest': nat)
    requires TextAt(str, src, s) && s != [] && dest <= src
    modifies str
    ensures src' + 1 == src + Next(s).len && dest' == dest + |Next(s).out|
    ensures str[dest..dest'] == Next(s).out
    ensures forall i | 0 <= i < dest || src' < i < str.Length :: str[i] == old(str[i])
  {
    hide TextAt;
    TextBytes(str, src, s);
    NextInside(s);
    src', dest' := src, dest;
    if str[src] == 0xc2 && str[src + 1] == 0xa0 {
      src' := src + 1;
      str[dest] := 0x20;
      dest' := dest + 1;
      return;
    }
    if str[src] == 0xe2 {
      var found;
      found, src', dest' := NormalizePunctuation(str, src, dest, s);
      if found {
        return;
      }
    } else if str[src] == 0xef {
      if str[src + 1] == 0xbb && str[src + 2] == 0xbf {
        src' := src + 2;
        return;
      }
      if str[src + 1] == 0xbc {
        if 0x81 <= str[src + 2] <= 0xbf {
          src', dest' := src + 2, dest + 1;
          str[src'] := str[src'] - 0x81;
          str[dest] := 0x21 + str[src'];
          return;
        }
      } else if str[src + 1] == 0xbd {
        if 0x80 <= str[src + 2] <= 0x9e {
          src', dest' := src + 2, dest + 1;
          str[src'] := str[src'] - 0x80;
          str[dest] := 0x60 + str[src'];
          return;
        }
      }
    }
    str[dest] := str[src];
    dest' := dest + 1;
  }

  lemma {:induction false} NormalizedNonzero(s: seq<bv8>)
    requires forall i | 0 <= i < |s| :: s[i] != 0
    ensures forall i | 0 <= i < |Normalized(s)| :: Normalized(s)[i] != 0
    decreases |s|
  {
    if s != [] {
      NextInside(s);
      NextNonzero(s);
      NormalizedNonzero(s[Next(s).len..]);
    }
  }

  lemma NextNonzero(s: seq<bv8>)
    requires s != [] && s[0] != 0
    ensures forall i | 0 <= i < |Next(s).out| :: Next(s).out[i] != 0
  {
  }

  /** One round of the loop leaves less of the text and more of the result. */
  lemma NormalizedStep(all: seq<bv8>, src: nat, done: seq<bv8>)
    requires src < |all| && done + Normalized(all[src..]) == Normalized(all)
    ensures var step := Next(all[src..]);
      src + step.len <= |all| && done + step.out + Normalized(all[src + step.len..]) == Normalized(all)
  {
    hide Next, Normalized;
    var s := all[src..];
    NextInside(s);
    NormalizedUnfold(s);
    assert s[Next(s).len..] == all[src + Next(s).len..];
    Regroup(done, Next(s).out, Normalized(all[src + Next(s).len..]));
  }

  lemma NormalizedUnfold(s: seq<bv8>)
    requires s != [] && Next(s).len <= |s|
    ensures Normalized(s) == Next(s).out + Normalized(s[Next(s).len..])
  {
    hide Next;
  }

  lemma SameText(str: array<bv8>, src: nat, s: seq<bv8>, n: nat)
    requires n < str.Length && src + |s| == n && str[src..n] == s && str[n] == 0 && forall i | 0 <= i < |s| :: s[i] != 0
    ensures TextAt(str, src, s)
  {
  }

  /** utf8_normalize_str */
  method NormalizeStr(str: array<bv8>, ghost n: nat) returns (ghost m: nat)
    requires n < str.Length && TextAt(str, 0, str[..n])
    modifies str
    ensures m <= n && TextAt(str, 0, Normalized(old(str[..n]))) && m == |Normalized(old(str[..n]))|
    ensures str[n + 1..] == old(str[n + 1..])
  {
    hide Next, Normalized, TextAt;
    ghost var all := str[..n];
    TextBytes(str, 0, all);
    var src, dest := 0, 0;
    while str[src] != 0
      invariant 0 <= dest <= src <= n && all == old(str[..n])
      invariant forall i | src <= i < str.Length :: str[i] == old(str[i])
      invariant str[..dest] + Normalized(all[src..]) == Normalized(all)
      decreases n - src
    {
      SameText(str, src, all[src..], n);
      TextBytes(str, src, all[src..]);
      NormalizedStep(all, src, str[..dest]);
      ghost var done, out := str[..dest], Next(all[src..]).out;
      src, dest := NormalizeAt(str, src, dest, all[src..]);
      src := src + 1;
      assert str[..dest] == done + out;
    }
    assert src == n;
    NothingNormalized();
    assert str[..dest] == Normalized(all);
    str[dest] := 0;
    m := dest;
    assert str[..dest] == Normalized(all);
    NormalizedNonzero(all);
    SameText(str, 0, str[..dest], dest);
  }

  lemma NothingNormalized()
    ensures Normalized([]) == []
  {
  }

  // ---- normalising, code point by code point

  /** What a code point is replaced with. */
  function Plain(c: bv32): seq<bv32> {
    if c == 0x00a0 || c == 0x2002 || c == 0x2003 then [0x20]
    else if 0x200b <= c <= 0x200d || c == 0xfeff then []
    else if 0x2010 <= c <= 0x2013 || c == 0x2043 || c == 0x2212 then [0x2d]
    else if c == 0x2018 then [0x60]
    else if c == 0x2019 || c == 0x2032 then [0x27]
    else if c == 0x201c || c == 0x201d then [0x22]
    else if c == 0x2026 then [0x2e, 0x2e, 0x2e]
    else if c == 0x2044 then [0x2f]
    else if 0xff01 <= c <= 0xff3f then [0x21 + (c - 0xff01)]
    else if 0xff40 <= c <= 0xff5e then [0x60 + (c - 0xff40)]
    else [c]
  }

  function AllPlain(cs: seq<bv32>): seq<bv32> {
    if cs == [] then [] else Plain(cs[0]) + AllPlain(cs[1..])
  }

  /** The three bytes of a code point that has three. */
  lemma ThreeBytes(c: bv32)
    requires Size(c) == 3
    ensures var rep := Replacement(Lead(3, c >> 12), Six(c >> 6), Six(c));
      if Plain(c) == [c] then rep == []
      else
        && |rep| == 1 && |rep[0]| == |Plain(c)|
        && forall i | 0 <= i < |rep[0]| :: Plain(c)[i] < 0x80 && rep[0][i] as bv32 == Plain(c)[i]
  {
  }

  /** Bytes that continue a sequence are copied. */
  lemma {:induction false} ContinuationsCopied(rest: seq<bv8>, more: seq<bv8>)
    requires forall i | 0 <= i < |rest| :: Continues(rest[i])
    ensures Normalized(rest + more) == rest + Normalized(more)
  {
    hide Normalized, Replacement;
    if rest == [] {
      assert rest + more == more;
    } else {
      var s := rest + more;
      ContinuationCopied(s);
      NormalizedUnfold(s);
      assert s[1..] == rest[1..] + more;
      ContinuationsCopied(rest[1..], more);
      assert rest == [rest[0]] + rest[1..];
      Regroup([rest[0]], rest[1..], Normalized(more));
    }
  }

  lemma ContinuationCopied(s: seq<bv8>)
    requires s != [] && Continues(s[0])
    ensures Next(s) == Step([s[0]], 1)
  {
  }

  /** One byte for each character below 128. */
  lemma {:induction false} AsciiEncodings(cs: seq<bv32>, s: seq<bv8>)
    requires |cs| == |s| && forall i | 0 <= i < |cs| :: cs[i] < 0x80 && s[i] as bv32 == cs[i]
    ensures Encodings(cs) == s
  {
    hide Encoding;
    if cs != [] {
      AsciiEncodings(cs[1..], s[1..]);
      AsciiEncoding(cs[0], s[0]);
      assert s == [s[0]] + s[1..];
    }
  }

  lemma AsciiEncoding(c: bv32, b: bv8)
    requires c < 0x80 && b as bv32 == c
    ensures Encoding(c) == [b]
  {
    Encoding1(c);
  }

  /** A first byte is copied where nothing is replaced, and otherwise the whole sequence is. */
  lemma NextOfCode(c: bv32, more: seq<bv8>)
    ensures var s := Encoding(c) + more;
      Next(s) == if Plain(c) == [c] then Step([Encoding(c)[0]], 1) else Step(Encodings(Plain(c)), Size(c))
    ensures Plain(c) != [c] ==> Size(c) in {2, 3}
  {
    hide Encoding, Lead, Six, Plain, Replacement, Encodings;
    var s := Encoding(c) + more;
    var b, d := At(s, 1), At(s, 2);
    match Size(c)
    case 1 => Encoding1(c); OneByte(c, b, d);
    case 2 => Encoding2(c); TwoBytes(c, b, d); AsciiEncodings([0x20], [0x20]);
    case 3 => Encoding3(c); ThreeBytes(c);
      NotNoBreak(3, c >> 12);
      var rep := Replacement(Lead(3, c >> 12), Six(c >> 6), Six(c));
      if Plain(c) != [c] { AsciiEncodings(Plain(c), rep[0]); }
    case 4 => Encoding4(c); LongBytes(4, c >> 18, b, d); NotPlain(c);
    case 5 => Encoding5(c); LongBytes(5, c >> 24, b, d); NotPlain(c);
    case 6 => Encoding6(c); LongBytes(6, c >> 30, b, d); NotPlain(c);
  }

  lemma OneByte(c: bv32, b: bv8, d: bv8)
    requires Size(c) == 1
    ensures Plain(c) == [c] && Lead(1, c) < 0x80
    ensures |Replacement(Lead(1, c), b, d)| == 0
  {
  }

  lemma TwoBytes(c: bv32, b: bv8, d: bv8)
    requires Size(c) == 2
    ensures Lead(2, c >> 6) == 0xc2 && Six(c) == 0xa0 <==> c == 0xa0
    ensures Plain(c) == if c == 0xa0 then [0x20] else [c]
    ensures |Replacement(Lead(2, c >> 6), b, d)| == 0
  {
  }

  lemma NotNoBreak(n: nat, v: bv32)
    requires 3 <= n <= 6
    ensures Lead(n, v) >= 0xe0
  {
  }

  lemma LongBytes(n: nat, v: bv32, b: bv8, d: bv8)
    requires 4 <= n <= 6
    ensures Lead(n, v) >= 0xf0
    ensures |Replacement(Lead(n, v), b, d)| == 0
  {
  }

  lemma NotPlain(c: bv32)
    requires Size(c) > 3
    ensures Plain(c) == [c]
  {
  }

  /** A code point of the text is replaced, or all its bytes are copied. */
  lemma CodeNormalized(c: bv32, more: seq<bv8>)
    ensures Normalized(Encoding(c) + more) == Encodings(Plain(c)) + Normalized(more)
  {
    hide Encoding, Plain, Next, Normalized, Continues;
    var s := Encoding(c) + more;
    NextOfCode(c, more);
    NormalizedUnfold(s);
    if Plain(c) == [c] {
      var rest := Encoding(c)[1..];
      FirstOfEncoding(c);
      assert s[1..] == rest + more;
      ContinuationsCopied(rest, more);
      assert Encodings([c]) == Encoding(c) == [Encoding(c)[0]] + rest;
      Regroup([Encoding(c)[0]], rest, Normalized(more));
    } else {
      assert s[Size(c)..] == more;
    }
  }

  lemma {:induction false} EncodingsConcat(cs: seq<bv32>, ds: seq<bv32>)
    ensures Encodings(cs + ds) == Encodings(cs) + Encodings(ds)
  {
    hide Encoding;
    if cs == [] {
      assert cs + ds == ds;
    } else {
      assert (cs + ds)[1..] == cs[1..] + ds;
      EncodingsConcat(cs[1..], ds);
      Regroup(Encoding(cs[0]), Encodings(cs[1..]), Encodings(ds));
    }
  }

  /** On text, utf8_normalize_str replaces the code points one by one. */
  lemma {:induction false} TextNormalized(cs: seq<bv32>)
    ensures Normalized(Encodings(cs)) == Encodings(AllPlain(cs))
  {
    hide Encoding, Plain, Normalized;
    if cs == [] {
      NothingNormalized();
    } else {
      CodeNormalized(cs[0], Encodings(cs[1..]));
      TextNormalized(cs[1..]);
      EncodingsConcat(Plain(cs[0]), AllPlain(cs[1..]));
    }
  }

  lemma PlainStays(c: bv32)
    ensures forall i | 0 <= i < |Plain(c)| :: Plain(Plain(c)[i]) == [Plain(c)[i]]
    ensures c < 0x8000_0000 ==> Codes(Plain(c))
  {
  }

  /** What has been replaced is not replaced again. */
  lemma {:induction false} AllPlainStays(cs: seq<bv32>)
    ensures forall i | 0 <= i < |AllPlain(cs)| :: Plain(AllPlain(cs)[i]) == [AllPlain(cs)[i]]
    ensures AllPlain(AllPlain(cs)) == AllPlain(cs)
    ensures Codes(cs) ==> Codes(AllPlain(cs))
  {
    hide Plain;
    if cs != [] {
      PlainStays(cs[0]);
      AllPlainStays(cs[1..]);
      assert Codes(cs) ==> Codes(cs[1..]);
    }
    PlainText(AllPlain(cs));
  }

  lemma {:induction false} PlainText(cs: seq<bv32>)
    requires forall i | 0 <= i < |cs| :: Plain(cs[i]) == [cs[i]]
    ensures AllPlain(cs) == cs
  {
    hide Plain;
    if cs != [] {
      PlainText(cs[1..]);
      assert cs == [cs[0]] + cs[1..];
    }
  }

  /** Text stays text, and normalising it once is enough. */
  lemma NormalizedTwice(s: seq<bv8>)
    requires IsText(s)
    ensures IsText(Normalized(s)) && Normalized(Normalized(s)) == Normalized(s)
  {
    hide Encoding, Plain, Normalized;
    var cs :| Codes(cs) && Encodings(cs) == s;
    TextNormalized(cs);
    AllPlainStays(cs);
    TextNormalized(AllPlain(cs));
  }

  // ---- normalising twice

  /** What is left of a string behind the sequences that are deleted at its beginning. */
  function Remaining(s: seq<bv8>): (r: seq<bv8>)
    ensures |r| <= |s|
    decreases |s|
  {
    if s == [] then []
    else
      NextInside(s);
      if Next(s).out == [] then Remaining(s[Next(s).len..]) else s
  }

  /** Byte b is the beginning of a sequence that is replaced, when deleted sequences behind it are skipped. */
  predicate Joins(b: bv8, rest: seq<bv8>) {
    var r := Remaining(rest);
    (b == 0xc2 && At(r, 0) == 0xa0) || (r != [] && |Replacement(b, r[0], At(Remaining(r[1..]), 0))| == 1)
  }

  /** Somewhere a byte that the loop copies comes to stand before bytes that complete a sequence with it. */
  predicate Rejoins(s: seq<bv8>)
    decreases |s|
  {
    s != [] &&
    (NextInside(s);
     (Copies(s) && Joins(s[0], s[1..])) || Rejoins(s[Next(s).len..]))
  }

  predicate Copies(s: seq<bv8>)
    requires s != []
  {
    Next(s) == Step([s[0]], 1)
  }

  /** The loop copies everything. */
  predicate Fixed(s: seq<bv8>)
    decreases |s|
  {
    s == [] || (Copies(s) && Fixed(s[1..]))
  }

  /** What is not copied is three bytes of which the first is no character of seven bits, or two. */
  lemma ReplacedIsAscii(s: seq<bv8>)
    requires s != [] && !Copies(s)
    ensures s[0] in {0xc2, 0xe2, 0xef} && Next(s).len >= 2
    ensures forall i | 0 <= i < |Next(s).out| :: Next(s).out[i] < 0x80
  {
  }

  lemma AsciiCopied(s: seq<bv8>)
    requires s != [] && s[0] < 0x80
    ensures Copies(s)
  {
  }

  lemma {:induction false} FixedIff(s: seq<bv8>)
    ensures Normalized(s) == s <==> Fixed(s)
    decreases |s|
  {
    hide Next, Normalized;
    if s == [] {
      NothingNormalized();
    } else {
      NextInside(s);
      NormalizedUnfold(s);
      var out, rest := Next(s).out, s[Next(s).len..];
      if Copies(s) {
        FixedIff(rest);
        assert s == [s[0]] + rest;
        assert Normalized(s)[1..] == Normalized(rest);
      } else {
        ReplacedIsAscii(s);
        assert out != [] ==> Normalized(s)[0] == out[0];
      }
    }
  }

  /** The first byte that is left is the one behind the deleted sequences, or has replaced it. */
  lemma {:induction false} FirstLeft(s: seq<bv8>)
    ensures Remaining(s) == [] <==> Normalized(s) == []
    ensures var r := Remaining(s);
      r != [] ==>
        if Copies(r) then Normalized(s) == [r[0]] + Normalized(r[1..])
        else Normalized(s) != [] && Normalized(s)[0] < 0x80 && r[0] in {0xc2, 0xe2, 0xef}
    decreases |s|
  {
    hide Next, Normalized;
    if s == [] {
      NothingNormalized();
    } else {
      NextInside(s);
      NormalizedUnfold(s);
      if Next(s).out == [] {
        FirstLeft(s[Next(s).len..]);
      } else if !Copies(s) {
        ReplacedIsAscii(s);
        assert Normalized(s)[0] == Next(s).out[0];
      }
    }
  }

  /** A copied byte joins what has been left behind it exactly when it joins the bytes themselves. */
  lemma JoinsLeft(b: bv8, rest: seq<bv8>)
    ensures Copies([b] + Normalized(rest)) <==> !Joins(b, rest)
  {
    hide Normalized, Remaining, Copies;
    var y, r := Normalized(rest), Remaining(rest);
    FirstLeft(rest);
    var s := [b] + y;
    assert s[0] == b && At(s, 1) == At(y, 0) && At(s, 2) == At(y, 1);
    CopiesIs(s);
    if r != [] && Copies(r) {
      FirstLeft(r[1..]);
      var z := Normalized(r[1..]);
      assert At(y, 1) == At(z, 0);
      SecondLeft(b, r[0], At(z, 0), At(Remaining(r[1..]), 0));
    } else if r != [] {
      SecondLeft(b, At(y, 0), At(y, 1), 0);
      SecondLeft(b, r[0], At(Remaining(r[1..]), 0), 0);
    }
  }

  lemma CopiesIs(s: seq<bv8>)
    requires s != []
    ensures Copies(s) <==> !(s[0] == 0xc2 && At(s, 1) == 0xa0) && |Replacement(s[0], At(s, 1), At(s, 2))| == 0
  {
  }

  /** Neither a character of seven bits nor the first byte of a sequence that is replaced can complete one. */
  lemma SecondLeft(a: bv8, b: bv8, c: bv8, c': bv8)
    ensures b < 0x80 || b in {0xc2, 0xe2, 0xef} ==> |Replacement(a, b, c)| == 0 && !(a == 0xc2 && b == 0xa0)
    ensures (c < 0x80 || c in {0xc2, 0xe2, 0xef}) && (c' < 0x80 || c' in {0xc2, 0xe2, 0xef}) ==>
      |Replacement(a, b, c)| == |Replacement(a, b, c')|
  {
  }

  lemma {:induction false} FixedAscii(out: seq<bv8>, rest: seq<bv8>)
    requires forall i | 0 <= i < |out| :: out[i] < 0x80
    ensures Fixed(out + rest) <==> Fixed(rest)
    decreases |out|
  {
    hide Copies;
    if out == [] {
      assert out + rest == rest;
    } else {
      AsciiCopied(out + rest);
      assert (out + rest)[1..] == out[1..] + rest;
      FixedAscii(out[1..], rest);
    }
  }

  lemma {:induction false} FixedUnlessRejoined(s: seq<bv8>)
    ensures Fixed(Normalized(s)) <==> !Rejoins(s)
    decreases |s|
  {
    hide Next, Normalized, Joins, Copies;
    if s == [] {
      NothingNormalized();
    } else {
      NextInside(s);
      NormalizedUnfold(s);
      var out, rest := Next(s).out, s[Next(s).len..];
      FixedUnlessRejoined(rest);
      if Copies(s) {
        CopiesOne(s);
        JoinsLeft(s[0], rest);
        assert ([s[0]] + Normalized(rest))[1..] == Normalized(rest);
      } else {
        ReplacedIsAscii(s);
        FixedAscii(out, Normalized(rest));
      }
    }
  }

  lemma CopiesOne(s: seq<bv8>)
    requires s != []
    ensures Copies(s) <==> Next(s) == Step([s[0]], 1)
  {
  }

  /** On any string: a second pass changes nothing exactly when no sequence comes together over deleted ones. */
  lemma NormalizedTwiceIff(s: seq<bv8>)
    ensures Normalized(Normalized(s)) == Normalized(s) <==> !Rejoins(s)
  {
    FixedIff(Normalized(s));
    FixedUnlessRejoined(s);
  }

  /** Deleting a zero-width space can join the halves of a no-break space. */
  lemma BrokenTextNormalizedTwice()
    ensures var s := [0xc2, 0xe2, 0x80, 0x8b, 0xa0];
      Rejoins(s) && Normalized(s) == [0xc2, 0xa0] && Normalized(Normalized(s)) == [0x20]
  {
    hide Normalized, Rejoins;
    var s := [0xc2, 0xe2, 0x80, 0x8b, 0xa0];
    NothingNormalized();
    NormalizedUnfold(s);
    assert s[1..] == [0xe2, 0x80, 0x8b, 0xa0];
    NormalizedUnfold(s[1..]);
    assert s[1..][3..] == [0xa0];
    var last, both := [0xa0], [0xc2, 0xa0];
    NormalizedUnfold(last);
    assert last[1..] == [] && Normalized(last) == [0xa0] + [] == [0xa0];
    assert Normalized(s[1..]) == [] + [0xa0] == [0xa0];
    assert Normalized(s) == [0xc2] + [0xa0] == both;
    NormalizedUnfold(both);
    assert both[2..] == [] && Normalized(both) == [0x20] + [] == [0x20];
    NormalizedTwiceIff(s);
  }

  // ---- replacing

  datatype Lookup = NoLookup | Lookup(f: bv32 -> bv8)

  /** The parameters of utf8_replace_chars; a zero character stands for none. width is unicode_width. */
  datatype Substitutes = Substitutes(lookup: Lookup, width: bv32 -> nat, unsupported: bv8, zeroWidth: bv8, error: bv8)

  function Optional(ch: bv8): seq<bv8> {
    if ch == 0 then [] else [ch]
  }

  /** What a code point of more than seven bits becomes. */
  function Substitute(c: bv32, sub: Substitutes): (r: seq<bv8>)
    ensures |r| <= 1
  {
    if sub.lookup.Lookup? && sub.lookup.f(c) != 0 then [sub.lookup.f(c)]
    else Optional(if sub.width(c) == 0 then sub.zeroWidth else sub.unsupported)
  }

  function Substituted(s: seq<bv8>, sub: Substitutes): (r: Step)
    requires s != []
    ensures 1 <= r.len && |r.out| <= 1
  {
    if s[0] < 0x80 then Step([s[0]], 1)
    else
      match Scanned(s)
      case Char(len, c) => if len < 2 then Step(Optional(sub.error), 1) else Step(Substitute(c, sub), len)
      case _ => Step(Optional(sub.error), 1)
  }

  lemma SubstitutedInside(s: seq<bv8>, sub: Substitutes)
    requires s != []
    ensures Substituted(s, sub).len <= |s|
  {
    hide Encoding, Scanned;
    if Scanned(s).Char? { ScannedEncoding(s); }
  }

  function Replaced(s: seq<bv8>, sub: Substitutes): (r: seq<bv8>)
    ensures |r| <= |s|
    decreases |s|
  {
    if s == [] then []
    else
      SubstitutedInside(s, sub);
      Substituted(s, sub).out + Replaced(s[Substituted(s, sub).len..], sub)
  }

  /** One round of the loop of utf8_replace_chars. */
  method ReplaceAt(str: array<bv8>, src: nat, end: nat, dest: nat, sub: Substitutes) returns (len: nat, dest': nat)
    requires dest <= src < end < str.Length
    modifies str
    ensures var step := Substituted(old(str[src..end]), sub);
      len == step.len && dest' == dest + |step.out| && str[dest..dest'] == step.out
    ensures forall i | 0 <= i < dest || src < i < str.Length :: str[i] == old(str[i])
  {
    hide Scanned;
    ghost var s := str[src..end];
    dest' := dest;
    NextByteSet(str[src]);
    if str[src] & 0x80 == 0 {
      str[dest] := str[src];
      return 1, dest + 1;
    }
    var ret, codepoint := GetC(str[src..end]);
    if ret < 2 {
      if sub.error != 0 {
        str[dest] := sub.error;
        dest' := dest + 1;
      }
      return 1, dest';
    }
    len := ret;
    if sub.lookup.Lookup? {
      var ch := sub.lookup.f(codepoint);
      if ch != 0 {
        str[dest] := ch;
        return len, dest + 1;
      }
    }
    if sub.width(codepoint) == 0 {
      if sub.zeroWidth != 0 {
        str[dest] := sub.zeroWidth;
        dest' := dest + 1;
      }
    } else if sub.unsupported != 0 {
      str[dest] := sub.unsupported;
      dest' := dest + 1;
    }
  }

  lemma NextByteSet(b: bv8)
    ensures b & 0x80 == 0 <==> b < 0x80
  {
  }

  lemma ReplacedUnfold(s: seq<bv8>, sub: Substitutes)
    requires s != [] && Substituted(s, sub).len <= |s|
    ensures Replaced(s, sub) == Substituted(s, sub).out + Replaced(s[Substituted(s, sub).len..], sub)
  {
    hide Substituted;
  }

  lemma ReplacedStep(all: seq<bv8>, src: nat, done: seq<bv8>, sub: Substitutes)
    requires src < |all| && done + Replaced(all[src..], sub) == Replaced(all, sub)
    ensures var step := Substituted(all[src..], sub);
      src + step.len <= |all| && done + step.out + Replaced(all[src + step.len..], sub) == Replaced(all, sub)
  {
    hide Substituted, Replaced;
    var s := all[src..];
    SubstitutedInside(s, sub);
    ReplacedUnfold(s, sub);
    var n := Substituted(s, sub).len;
    assert s[n..] == all[src + n..];
    Regroup(done, Substituted(s, sub).out, Replaced(all[src + n..], sub));
  }

  lemma NothingReplaced(sub: Substitutes)
    ensures Replaced([], sub) == []
  {
  }

  /** utf8_replace_chars on a text of n bytes */
  method ReplaceChars(str: array<bv8>, n: nat, sub: Substitutes) returns (ghost m: nat)
    requires n < str.Length && str[n] == 0
    modifies str
    ensures m <= n && str[..m] == Replaced(old(str[..n]), sub) && str[m] == 0
    ensures str[n + 1..] == old(str[n + 1..])
  {
    hide Substituted, Replaced;
    ghost var all := str[..n];
    var src, dest := 0, 0;
    while src < n
      invariant 0 <= dest <= src <= n
      invariant forall i | src <= i < str.Length :: str[i] == old(str[i])
      invariant str[..dest] + Replaced(all[src..], sub) == Replaced(all, sub)
      decreases n - src
    {
      assert str[src..n] == all[src..];
      ReplacedStep(all, src, str[..dest], sub);
      ghost var done, out := str[..dest], Substituted(all[src..], sub).out;
      var len;
      len, dest := ReplaceAt(str, src, n, dest, sub);
      src := src + len;
      assert str[..dest] == done + out;
    }
    NothingReplaced(sub);
    assert str[..dest] == Replaced(all, sub);
    str[dest] := 0;
    m := dest;
    assert str[..m] == Replaced(all, sub);
  }

  // ---- replacing, code point by code point

  function AllSubstituted(cs: seq<bv32>, sub: Substitutes): seq<bv8> {
    if cs == [] then []
    else (if cs[0] < 0x80 then [cs[0] as bv8] else Substitute(cs[0], sub)) + AllSubstituted(cs[1..], sub)
  }

  lemma SubstitutedCode(c: bv32, more: seq<bv8>, sub: Substitutes)
    requires c < 0x8000_0000
    ensures Substituted(Encoding(c) + more, sub) ==
      Step(if c < 0x80 then [c as bv8] else Substitute(c, sub), Size(c))
  {
    hide Encoding, Scanned, Substitute;
    FirstOfEncoding(c);
    EncodingScanned(c, more);
    SevenBits(Encoding(c)[0]);
    if c < 0x80 { AsciiEncoding(c, c as bv8); }
  }

  lemma SevenBits(b: bv8)
    ensures Announced(b) == 1 <==> b < 0x80
  {
  }

  /** On text, utf8_replace_chars substitutes the code points of more than seven bits one by one. */
  lemma {:induction false} TextReplaced(cs: seq<bv32>, sub: Substitutes)
    requires Codes(cs)
    ensures Replaced(Encodings(cs), sub) == AllSubstituted(cs, sub)
  {
    hide Encoding, Substitute, Substituted, Replaced;
    if cs == [] {
      NothingReplaced(sub);
    } else {
      SubstitutedCode(cs[0], Encodings(cs[1..]), sub);
      ReplacedUnfold(Encodings(cs), sub);
      assert Encodings(cs)[Size(cs[0])..] == Encodings(cs[1..]);
      TextReplaced(cs[1..], sub);
    }
  }

  ghost predicate SevenBit(s: seq<bv8>) {
    forall i | 0 <= i < |s| :: s[i] < 0x80
  }

  /** Whatever the bytes are, only seven-bit characters and the given replacements are left. */
  lemma {:induction false} ReplacedSevenBit(s: seq<bv8>, sub: Substitutes)
    requires sub.unsupported < 0x80 && sub.zeroWidth < 0x80 && sub.error < 0x80
    requires sub.lookup.Lookup? ==> forall c :: sub.lookup.f(c) < 0x80
    ensures SevenBit(Replaced(s, sub))
    decreases |s|
  {
    hide Scanned;
    if s != [] {
      SubstitutedInside(s, sub);
      ReplacedSevenBit(s[Substituted(s, sub).len..], sub);
    }
  }

  /** A code point of more than seven bits becomes what the look-up gives for it; if that gives nothing, it becomes the
      character for those without width or the one for all others, or vanishes where that is zero. */
  lemma CodePointReplaced(c: bv32, sub: Substitutes)
    requires 0x80 <= c < 0x8000_0000
    ensures var s := Replaced(Encoding(c), sub);
      var known := if sub.lookup.Lookup? then sub.lookup.f(c) else 0;
      && (known != 0 ==> s == [known])
      && (known == 0 && sub.width(c) == 0 ==> if sub.zeroWidth == 0 then s == [] else s == [sub.zeroWidth])
      && (known == 0 && sub.width(c) > 0 ==> if sub.unsupported == 0 then s == [] else s == [sub.unsupported])
  {
    hide Encoding, Replaced;
    OneCode(c, sub);
  }

  lemma OneCode(c: bv32, sub: Substitutes)
    requires 0x80 <= c < 0x8000_0000
    ensures Replaced(Encoding(c), sub) == Substitute(c, sub)
  {
    hide Encoding, Substitute, Substituted, Replaced;
    assert Encoding(c) + [] == Encoding(c) && Encoding(c)[|Encoding(c)|..] == [];
    SubstitutedCode(c, [], sub);
    ReplacedUnfold(Encoding(c), sub);
    NothingReplaced(sub);
    assert Substitute(c, sub) + [] == Substitute(c, sub);
  }

  /** A byte that begins no sequence becomes the character for errors, or vanishes where that is zero. */
  lemma BrokenReplaced(s: seq<bv8>, sub: Substitutes)
    requires s != [] && s[0] >= 0x80 && !Scanned(s).Char?
    ensures Replaced(s, sub) == (if sub.error == 0 then [] else [sub.error]) + Replaced(s[1..], sub)
  {
    hide Scanned, Replaced;
    ReplacedUnfold(s, sub);
  }

  function SevenBitOnly(s: seq<bv8>): seq<bv8> {
    if s == [] then [] else (if s[0] < 0x80 then [s[0]] else []) + SevenBitOnly(s[1..])
  }

  /** With nothing to put in their place, all bytes of more than seven bits vanish, whatever they are, and all others
      stay. */
  lemma {:induction false} ReplacedStrips(s: seq<bv8>, width: bv32 -> nat)
    ensures Replaced(s, Substitutes(NoLookup, width, 0, 0, 0)) == SevenBitOnly(s)
    decreases |s|
  {
    hide Encoding, Scanned, Replaced;
    var sub := Substitutes(NoLookup, width, 0, 0, 0);
    if s == [] {
      NothingReplaced(sub);
    } else {
      SubstitutedInside(s, sub);
      ReplacedUnfold(s, sub);
      var n := Substituted(s, sub).len;
      ReplacedStrips(s[n..], width);
      HighBytes(s, sub);
      SevenBitConcat(s[..n], s[n..]);
      assert s[..n] + s[n..] == s;
    }
  }

  lemma {:induction false} SevenBitConcat(a: seq<bv8>, b: seq<bv8>)
    ensures SevenBitOnly(a + b) == SevenBitOnly(a) + SevenBitOnly(b)
    decreases |a|
  {
    if a == [] {
      assert a + b == b;
    } else {
      assert (a + b)[1..] == a[1..] + b;
      SevenBitConcat(a[1..], b);
    }
  }

  /** All bytes of a sequence of more than one have the high bit set. */
  lemma HighBytes(s: seq<bv8>, sub: Substitutes)
    requires s != [] && Substituted(s, sub).len <= |s|
    ensures SevenBitOnly(s[..Substituted(s, sub).len]) == if s[0] < 0x80 then [s[0]] else []
  {
    hide Encoding;
    var n := Substituted(s, sub).len;
    if s[0] < 0x80 {
      assert s[..1] == [s[0]];
    } else {
      forall i | 0 <= i < n
        ensures s[i] >= 0x80
      {
        if 1 <= i { assert Continues(s[i]); }
      }
      NoSevenBit(s[..n]);
    }
  }

  lemma {:induction false} NoSevenBit(s: seq<bv8>)
    requires forall i | 0 <= i < |s| :: s[i] >= 0x80
    ensures SevenBitOnly(s) == []
    decreases |s|
  {
    if s != [] { NoSevenBit(s[1..]); }
  }
}
