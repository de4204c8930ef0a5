/** The parts of Go's standard library that credential validation relies on,
    stated over well-formed strings.  A Go string that holds valid UTF-8 is a
    sequence of runes, and a rune of such a string is a Unicode scalar value,
    which is exactly what a Dafny `char` is; so a Go string is a `string` here.

    - `IsSpace` is `unicode.IsSpace`;
    - `TrimSpace` is `strings.TrimSpace`: it removes the white-space runes at
      both ends and keeps everything in between;
    - `Utf8Len` is the built-in `len` on a string, which counts BYTES of the
      UTF-8 encoding, not runes; `Utf8Encode` is that encoding, given so that
      the byte count can be checked against the bytes themselves, and
      `Utf8Decode` reads the runes back from the bytes.
 */
module GoStrings {

  /** A byte, as Go's `byte`. */
  newtype byte = x: int | 0 <= x < 0x100

  /** The white space of the ASCII fast path of `strings.TrimSpace`:
      '\t', '\n', '\v', '\f', '\r' and ' '. */
  const AsciiSpace: set<char> := {'\t', '\n', '\U{0B}', '\U{0C}', '\r', ' '}

  /** The white-space runes of `unicode.IsSpace`: the Latin-1 ones
      ('\t', '\n', '\v', '\f', '\r', ' ', U+0085, U+00A0) and, above Latin-1,
      the other runes with the Unicode White_Space property.  On ASCII it
      agrees with the fast path's table, so both paths of `strings.TrimSpace`
      trim the same runes. */
  predicate IsSpace(c: char)
    ensures c < '\U{80}' ==> (IsSpace(c) <==> c in AsciiSpace)
    ensures IsSpace(c) ==> c <= '\U{3000}'
  {
    ('\t' <= c <= '\r') || c == ' ' || c == '\U{0085}' || c == '\U{00A0}' ||
    c == '\U{1680}' || ('\U{2000}' <= c <= '\U{200A}') ||
    c == '\U{2028}' || c == '\U{2029}' || c == '\U{202F}' || c == '\U{205F}' ||
    c == '\U{3000}'
  }

  /** Every rune of `s` is white space (true of the empty string). */
  predicate AllSpace(s: string)
  {
    forall i | 0 <= i < |s| :: IsSpace(s[i])
  }

  /** `s` neither starts nor ends with white space. */
  predicate IsTrimmed(s: string)
  {
    s == [] || (!IsSpace(s[0]) && !IsSpace(s[|s| - 1]))
  }

  /** `s` with its leading white space removed: it starts with a rune that is
      not white space (`TrimLeftSplits` says what was cut off). */
  function TrimLeft(s: string): (r: string)
    ensures |r| <= |s|
    ensures r == [] || !IsSpace(r[0])
    ensures r != [] ==> r[|r| - 1] == s[|s| - 1]
  {
    if s != [] && IsSpace(s[0]) then TrimLeft(s[1..]) else s
  }

  /** `s` with its trailing white space removed: it ends with a rune that is
      not white space (`TrimRightSplits` says what was cut off). */
  function TrimRight(s: string): (r: string)
    ensures |r| <= |s|
    ensures r == [] || !IsSpace(r[|r| - 1])
    ensures r != [] ==> r[0] == s[0]
  {
    if s != [] && IsSpace(s[|s| - 1]) then TrimRight(s[..|s| - 1]) else s
  }

  /** What `TrimLeft` cut off is white space, and it came before the result. */
  lemma {:induction false} TrimLeftSplits(s: string) returns (lead: string)
    ensures s == lead + TrimLeft(s) && AllSpace(lead)
  {
    if s != [] && IsSpace(s[0]) {
      var rest := TrimLeftSplits(s[1..]);
      lead := [s[0]] + rest;
      assert s == [s[0]] + s[1..];
      assert AllSpace(lead) by {
        forall i | 0 <= i < |lead| ensures IsSpace(lead[i]) {
          if i > 0 { assert lead[i] == rest[i - 1]; }
        }
      }
    } else {
      lead := [];
      assert s == lead + s;
    }
  }

  /** What `TrimRight` cut off is white space, and it came after the result. */
  lemma {:induction false} TrimRightSplits(s: string) returns (trail: string)
    ensures s == TrimRight(s) + trail && AllSpace(trail)
  {
    if s != [] && IsSpace(s[|s| - 1]) {
      var front := s[..|s| - 1];
      var rest := TrimRightSplits(front);
      trail := rest + [s[|s| - 1]];
      assert s == front + [s[|s| - 1]];
      assert AllSpace(trail) by {
        forall i | 0 <= i < |trail| ensures IsSpace(trail[i]) {
          if i < |rest| { assert trail[i] == rest[i]; }
        }
      }
    } else {
      trail := [];
      assert s == s + trail;
    }
  }

  /** `s` is `m` with the white space `lead` before it and `trail` after it. */
  predicate Padded(s: string, lead: string, m: string, trail: string)
  {
    s == lead + m + trail && AllSpace(lead) && AllSpace(trail)
  }

  /** `strings.TrimSpace`: the white space at both ends of `s` removed, so
      the result is trimmed and no longer than `s`.  `TrimSpacePadded` and
      `TrimSpaceUnique` below state what it keeps. */
  function TrimSpace(s: string): (r: string)
    ensures IsTrimmed(r) && |r| <= |s|
  {
    TrimRight(TrimLeft(s))
  }

  /** `s` is `TrimSpace(s)` with only white space before and after it. */
  lemma TrimSpacePadded(s: string) returns (lead: string, trail: string)
    ensures Padded(s, lead, TrimSpace(s), trail)
  {
    var l := TrimLeft(s);
    lead := TrimLeftSplits(s);
    trail := TrimRightSplits(l);
    assert s == lead + TrimSpace(s) + trail;
  }

  /** Leading white space never changes what is left after trimming the left end. */
  lemma {:induction false} TrimLeftSkipsSpace(lead: string, t: string)
    requires AllSpace(lead)
    ensures TrimLeft(lead + t) == TrimLeft(t)
  {
    if lead == [] {
      assert lead + t == t;
    } else {
      assert (lead + t)[0] == lead[0] && (lead + t)[1..] == lead[1..] + t;
      assert AllSpace(lead[1..]) by {
        forall i | 0 <= i < |lead[1..]| ensures IsSpace(lead[1..][i]) { assert lead[1..][i] == lead[i + 1]; }
      }
      TrimLeftSkipsSpace(lead[1..], t);
    }
  }

  /** Trailing white space never changes what is left after trimming the right end. */
  lemma {:induction false} TrimRightSkipsSpace(t: string, trail: string)
    requires AllSpace(trail)
    ensures TrimRight(t + trail) == TrimRight(t)
  {
    if trail == [] {
      assert t + trail == t;
    } else {
      var n := |trail|;
      assert (t + trail)[|t + trail| - 1] == trail[n - 1];
      assert (t + trail)[..|t + trail| - 1] == t + trail[..n - 1];
      TrimRightSkipsSpace(t, trail[..n - 1]);
    }
  }

  /** The trim is unique: whenever `s` is a trimmed string `m` with white space
      around it, `TrimSpace(s)` is `m`. */
  lemma TrimSpaceUnique(s: string, lead: string, m: string, trail: string)
    requires Padded(s, lead, m, trail) && IsTrimmed(m)
    ensures TrimSpace(s) == m
  {
    assert lead + m + trail == lead + (m + trail);
    TrimLeftSkipsSpace(lead, m + trail);
    if m == [] {
      assert m + trail == trail;
      TrimLeftSkipsSpace(trail, []);
      assert trail + [] == trail;
    } else {
      assert TrimLeft(m + trail) == m + trail;
      TrimRightSkipsSpace(m, trail);
    }
  }

  /** Two runs of white space make one. */
  lemma AllSpaceAppend(a: string, b: string)
    requires AllSpace(a) && AllSpace(b)
    ensures AllSpace(a + b)
  {
    forall i | 0 <= i < |a + b| ensures IsSpace((a + b)[i]) {
      if i < |a| { assert (a + b)[i] == a[i]; }
      else { assert (a + b)[i] == b[i - |a|]; }
    }
  }

  /** Concatenation regrouped. */
  lemma Regroup(a: string, b: string, c: string, d: string, e: string)
    ensures a + (b + c + d) + e == (a + b) + c + (d + e)
  {
  }

  /** White space added around a string does not change its trim. */
  lemma TrimSpaceIgnoresPadding(lead: string, s: string, trail: string)
    requires AllSpace(lead) && AllSpace(trail)
    ensures TrimSpace(lead + s + trail) == TrimSpace(s)
  {
    var l, t := TrimSpacePadded(s);
    AllSpaceAppend(lead, l);
    AllSpaceAppend(t, trail);
    var m := TrimSpace(s);
    Regroup(lead, l, m, t, trail);
    TrimSpaceUnique(lead + s + trail, lead + l, m, t + trail);
  }

  /** A string that is already trimmed is left as it is. */
  lemma TrimSpaceOfTrimmed(s: string)
    requires IsTrimmed(s)
    ensures TrimSpace(s) == s
  {
    assert Padded(s, [], s, []);
    TrimSpaceUnique(s, [], s, []);
  }

  /** Trimming twice is trimming once. */
  lemma TrimSpaceIdempotent(s: string)
    ensures TrimSpace(TrimSpace(s)) == TrimSpace(s)
  {
    TrimSpaceOfTrimmed(TrimSpace(s));
  }

  /** The number of bytes `utf8.RuneLen` gives for a rune (a `char` is never a
      surrogate, so the -1 case of Go's function does not arise): the length
      of the rune's UTF-8 encoding, one byte exactly for ASCII. */
  function RuneLen(c: char): (n: nat)
    ensures n == |EncodeRune(c)|
    ensures n == 1 <==> c < '\U{80}'
  {
    if c < '\U{80}' then 1
    else if c < '\U{800}' then 2
    else if c < '\U{10000}' then 3
    else 4
  }

  /** Go's `len` on a string: the number of bytes of its UTF-8 encoding, at
      least one and at most four per rune. */
  function Utf8Len(s: string): (n: nat)
    ensures |s| <= n <= 4 * |s|
  {
    if s == [] then 0 else RuneLen(s[0]) + Utf8Len(s[1..])
  }

  /** A byte that continues a multi-byte rune: 10xxxxxx. */
  predicate IsContinuation(b: byte)
  {
    0x80 <= b < 0xC0
  }

  /** How many bytes a rune takes, read from its first byte: 0xxxxxxx one,
      110xxxxx two, 1110xxxx three, 11110xxx four.  A continuation byte in
      first position is one byte that cannot be decoded. */
  function SequenceLength(lead: byte): nat
  {
    if lead < 0xC0 then 1
    else if lead < 0xE0 then 2
    else if lead < 0xF0 then 3
    else 4
  }

  /** The UTF-8 encoding of one rune, as `utf8.EncodeRune` writes it: the
      first byte announces the length and the others are continuation bytes;
      `DecodeEncodedRune` shows that the bytes give the rune back. */
  function EncodeRune(c: char): (bytes: seq<byte>)
    ensures 1 <= |bytes| <= 4 && |bytes| == SequenceLength(bytes[0])
    ensures forall k | 1 <= k < |bytes| :: IsContinuation(bytes[k])
    ensures c < '\U{80}' <==> bytes[0] < 0x80
    ensures c < '\U{80}' ==> bytes == [c as int as byte]
  {
    var x := c as int;
    if x < 0x80 then [x as byte]
    else if x < 0x800 then [(0xC0 + x / 0x40) as byte, (0x80 + x % 0x40) as byte]
    else if x < 0x10000 then
      [(0xE0 + x / 0x1000) as byte, (0x80 + x / 0x40 % 0x40) as byte, (0x80 + x % 0x40) as byte]
    else
      [(0xF0 + x / 0x40000) as byte, (0x80 + x / 0x1000 % 0x40) as byte,
       (0x80 + x / 0x40 % 0x40) as byte, (0x80 + x % 0x40) as byte]
  }

  /** The bytes of a Go string holding the runes `s`. */
  function Utf8Encode(s: string): (bytes: seq<byte>)
  {
    if s == [] then [] else EncodeRune(s[0]) + Utf8Encode(s[1..])
  }

  /** A code point that a `char` can hold: not a surrogate, not above U+10FFFF. */
  predicate IsScalar(x: int)
  {
    0 <= x < 0xD800 || 0xE000 <= x < 0x110000
  }

  /** The payload bits of a byte. */
  function Low6(b: byte): int
  {
    b as int % 0x40
  }

  /** The first rune of `b` and the number of bytes it takes.  A first byte
      that cannot start a rune, a rune cut short, a bad continuation byte or a
      value outside Unicode decodes as U+FFFD taking one byte, as Go's decoder
      does.  So does an overlong form, one that spells a value with more bytes
      than its encoding needs: each width has a least value it may carry. */
  function DecodeRune(b: seq<byte>): (r: (char, nat))
    requires |b| > 0
    ensures 1 <= r.1 <= |b|
    ensures b[0] < 0x80 ==> r == (b[0] as int as char, 1)
    ensures 0x80 <= b[0] && r.1 == 1 ==> r.0 == '\U{FFFD}'
    ensures r.1 > 1 ==> r.1 == SequenceLength(b[0]) && '\U{80}' <= r.0
  {
    var n := SequenceLength(b[0]);
    if b[0] < 0x80 then (b[0] as int as char, 1)
    else if n == 1 || |b| < n then ('\U{FFFD}', 1)
    else if !IsContinuation(b[1]) || (n >= 3 && !IsContinuation(b[2])) || (n == 4 && !IsContinuation(b[3]))
    then ('\U{FFFD}', 1)
    else
      var x :=
        if n == 2 then (b[0] as int - 0xC0) * 0x40 + Low6(b[1])
        else if n == 3 then ((b[0] as int - 0xE0) * 0x40 + Low6(b[1])) * 0x40 + Low6(b[2])
        else (((b[0] as int - 0xF0) * 0x40 + Low6(b[1])) * 0x40 + Low6(b[2])) * 0x40 + Low6(b[3]);
      var least := if n == 2 then 0x80 else if n == 3 then 0x800 else 0x10000;
      if least <= x && IsScalar(x) then (x as char, n) else ('\U{FFFD}', 1)
  }

  /** The runes of the bytes `b`, read from first to last. */
  function Utf8Decode(b: seq<byte>): (s: string)
    ensures |s| <= |b|
    decreases |b|
  {
    if b == [] then []
    else
      var r := DecodeRune(b);
      [r.0] + Utf8Decode(b[r.1..])
  }

  /** Decoding the encoding of a rune gives the rune back and consumes
      exactly its bytes, whatever follows them. */
  lemma DecodeEncodedRune(c: char, rest: seq<byte>)
    ensures DecodeRune(EncodeRune(c) + rest) == (c, |EncodeRune(c)|)
  {
    var x := c as int;
    if x < 0x80 {
      assert (EncodeRune(c) + rest)[0] == x as byte;
    } else if x < 0x800 {
      DecodeTwoBytes(c, rest);
    } else if x < 0x10000 {
      DecodeThreeBytes(c, rest);
    } else {
      DecodeFourBytes(c, rest);
    }
  }

  /** `DecodeEncodedRune` for runes of two bytes. */
  lemma DecodeTwoBytes(c: char, rest: seq<byte>)
    requires '\U{80}' <= c < '\U{800}'
    ensures DecodeRune(EncodeRune(c) + rest) == (c, 2)
  {
    var x := c as int;
    var b := EncodeRune(c) + rest;
    assert b[0] as int == 0xC0 + x / 0x40 && b[1] as int == 0x80 + x % 0x40;
    assert Low6(b[1]) == x % 0x40;
    assert (x / 0x40) * 0x40 + x % 0x40 == x;
  }

  /** `DecodeEncodedRune` for runes of three bytes. */
  lemma DecodeThreeBytes(c: char, rest: seq<byte>)
    requires '\U{800}' <= c < '\U{10000}'
    ensures DecodeRune(EncodeRune(c) + rest) == (c, 3)
  {
    var x := c as int;
    var b := EncodeRune(c) + rest;
    assert b[0] as int == 0xE0 + x / 0x1000;
    assert b[1] as int == 0x80 + x / 0x40 % 0x40 && b[2] as int == 0x80 + x % 0x40;
    assert Low6(b[1]) == x / 0x40 % 0x40 && Low6(b[2]) == x % 0x40;
    assert x / 0x40 == (x / 0x1000) * 0x40 + x / 0x40 % 0x40;
    assert x == (x / 0x40) * 0x40 + x % 0x40;
  }

  /** `DecodeEncodedRune` for runes of four bytes. */
  lemma DecodeFourBytes(c: char, rest: seq<byte>)
    requires '\U{10000}' <= c
    ensures DecodeRune(EncodeRune(c) + rest) == (c, 4)
  {
    var x := c as int;
    var b := EncodeRune(c) + rest;
    assert b[0] as int == 0xF0 + x / 0x40000;
    assert b[1] as int == 0x80 + x / 0x1000 % 0x40;
    assert b[2] as int == 0x80 + x / 0x40 % 0x40 && b[3] as int == 0x80 + x % 0x40;
    assert Low6(b[1]) == x / 0x1000 % 0x40;
    assert Low6(b[2]) == x / 0x40 % 0x40 && Low6(b[3]) == x % 0x40;
    assert x / 0x1000 == (x / 0x40000) * 0x40 + x / 0x1000 % 0x40;
    assert x / 0x40 == (x / 0x1000) * 0x40 + x / 0x40 % 0x40;
    assert x == (x / 0x40) * 0x40 + x % 0x40;
  }

  /** A rune decoded from more than one byte was written in its one canonical
      form: encoding it again gives back exactly the bytes it consumed. */
  lemma EncodeDecodedRune(b: seq<byte>)
    requires |b| > 0 && DecodeRune(b).1 > 1
    ensures EncodeRune(DecodeRune(b).0) == b[..DecodeRune(b).1]
  {
    var n := SequenceLength(b[0]);
    if n == 2 {
      EncodeTwoBytes(b);
    } else if n == 3 {
      EncodeThreeBytes(b);
    } else {
      EncodeFourBytes(b);
    }
  }

  /** `EncodeDecodedRune` for a two-byte form. */
  lemma EncodeTwoBytes(b: seq<byte>)
    requires |b| > 0 && SequenceLength(b[0]) == 2 && DecodeRune(b).1 > 1
    ensures EncodeRune(DecodeRune(b).0) == b[..2]
  {
    var y0, y1 := b[0] as int - 0xC0, Low6(b[1]);
    var x := y0 * 0x40 + y1;
    assert DecodeRune(b) == (x as char, 2);
    assert x / 0x40 == y0 && x % 0x40 == y1;
    assert b[1] as int == 0x80 + y1;
  }

  /** `EncodeDecodedRune` for a three-byte form. */
  lemma EncodeThreeBytes(b: seq<byte>)
    requires |b| > 0 && SequenceLength(b[0]) == 3 && DecodeRune(b).1 > 1
    ensures EncodeRune(DecodeRune(b).0) == b[..3]
  {
    var y0, y1, y2 := b[0] as int - 0xE0, Low6(b[1]), Low6(b[2]);
    var x := (y0 * 0x40 + y1) * 0x40 + y2;
    assert DecodeRune(b) == (x as char, 3);
    assert x / 0x40 == y0 * 0x40 + y1 && x % 0x40 == y2;
    assert x / 0x1000 == y0 && x / 0x40 % 0x40 == y1;
    assert b[1] as int == 0x80 + y1 && b[2] as int == 0x80 + y2;
  }

  /** `EncodeDecodedRune` for a four-byte form. */
  lemma EncodeFourBytes(b: seq<byte>)
    requires |b| > 0 && SequenceLength(b[0]) == 4 && DecodeRune(b).1 > 1
    ensures EncodeRune(DecodeRune(b).0) == b[..4]
  {
    var y0, y1, y2, y3 := b[0] as int - 0xF0, Low6(b[1]), Low6(b[2]), Low6(b[3]);
    var x := ((y0 * 0x40 + y1) * 0x40 + y2) * 0x40 + y3;
    assert DecodeRune(b) == (x as char, 4);
    assert x / 0x40 == (y0 * 0x40 + y1) * 0x40 + y2 && x % 0x40 == y3;
    assert x / 0x1000 == y0 * 0x40 + y1 && x / 0x40 % 0x40 == y2;
    assert x / 0x40000 == y0 && x / 0x1000 % 0x40 == y1;
    assert b[1] as int == 0x80 + y1 && b[2] as int == 0x80 + y2 && b[3] as int == 0x80 + y3;
  }

  /** Decoding the bytes of a string gives the string back: the encoding
      loses nothing, so its length is the byte count of the string. */
  lemma {:induction false} Utf8RoundTrip(s: string)
    ensures Utf8Decode(Utf8Encode(s)) == s
  {
    if s != [] {
      var e := EncodeRune(s[0]);
      var rest := Utf8Encode(s[1..]);
      DecodeEncodedRune(s[0], rest);
      assert (e + rest)[|e|..] == rest;
      Utf8RoundTrip(s[1..]);
      assert s == [s[0]] + s[1..];
    }
  }

  /** `Utf8Len` counts exactly the bytes of the encoding. */
  lemma {:induction false} Utf8LenCountsBytes(s: string)
    ensures Utf8Len(s) == |Utf8Encode(s)|
  {
    if s != [] {
      Utf8LenCountsBytes(s[1..]);
    }
  }

  /** Byte length is additive over concatenation. */
  lemma {:induction false} Utf8LenAppend(a: string, b: string)
    ensures Utf8Len(a + b) == Utf8Len(a) + Utf8Len(b)
  {
    if a == [] {
      assert a + b == b;
    } else {
      assert (a + b)[0] == a[0] && (a + b)[1..] == a[1..] + b;
      Utf8LenAppend(a[1..], b);
    }
  }

  /** Byte length equals rune count exactly when every rune is ASCII. */
  lemma {:induction false} Utf8LenIsRuneCountIffAscii(s: string)
    ensures Utf8Len(s) == |s| <==> forall i | 0 <= i < |s| :: s[i] < '\U{80}'
  {
    if s != [] {
      Utf8LenIsRuneCountIffAscii(s[1..]);
      assert forall i | 1 <= i < |s| :: s[i] == s[1..][i - 1];
    }
  }

  /** A string of runes from U+0080 to U+07FF (Latin accents, Greek, Cyrillic,
      Hebrew, Arabic, ...) takes two bytes per rune. */
  lemma {:induction false} Utf8LenOfTwoByteRunes(s: string)
    requires forall i | 0 <= i < |s| :: '\U{80}' <= s[i] < '\U{800}'
    ensures Utf8Len(s) == 2 * |s|
  {
    if s != [] {
      assert forall i | 0 <= i < |s[1..]| :: s[1..][i] == s[i + 1];
      Utf8LenOfTwoByteRunes(s[1..]);
    }
  }
}
