/** The percent-encoder of the template engine, against percent-decoding as in
    sections 2.1 to 2.3 of RFC 3986. */
module Escaping {
  import opened Text

  /** The bytes of "unreserved" in section 2.3 of RFC 3986. */
  predicate Unreserved(c: byte) {
    IsAlpha(c) || IsDigit(c) || c in {0x2D, 0x2E, 0x5F, 0x7E}   // - . _ ~
  }

  /** The bytes of "reserved" in section 2.2 of RFC 3986: the gen-delims and the sub-delims. */
  predicate Reserved(c: byte) {
    || c in {0x3A, 0x2F, 0x3F, 0x23, 0x5B, 0x5D, 0x40}                                // : / ? # [ ] @
    || c in {0x21, 0x24, 0x26, 0x27, 0x28, 0x29, 0x2A, 0x2B, 0x2C, 0x3B, 0x3D}        // ! $ & ' ( ) * + , ; =
  }

  predicate Allowed(c: byte, allowReserved: bool) {
    Unreserved(c) || (allowReserved && Reserved(c))
  }

  /** The digit table: upper-case hexadecimal. */
  function HexDigit(n: nat): (c: byte)
    requires n < 16
    ensures IsHex(c) && HexValue(c) == n
  {
    if n < 10 then ZERO + n as byte else 0x41 + (n - 10) as byte
  }

  function HexValue(c: byte): (n: nat)
    requires IsHex(c)
    ensures n < 16
  {
    if IsDigit(c) then (c - ZERO) as nat
    else if c <= 0x46 then (c - 0x41) as nat + 10
    else (c - 0x61) as nat + 10
  }

  function Triplet(c: byte): Text {
    [PERCENT, HexDigit(c as nat / 16), HexDigit(c as nat % 16)]
  }

  function Triplets(s: Text): Text {
    if s == [] then [] else Triplet(s[0]) + Triplets(s[1..])
  }

  function EscapedByte(c: byte, allowReserved: bool): Text {
    if Allowed(c, allowReserved) then [c] else Triplet(c)
  }

  function Escaped(s: Text, allowReserved: bool): Text {
    if s == [] then [] else EscapedByte(s[0], allowReserved) + Escaped(s[1..], allowReserved)
  }

  // ---------- the code ----------

  /** Writes a triplet for every byte of the match into a fresh array. */
  method PctEncode(src: Text) returns (dst: array<byte>)
    ensures fresh(dst) && dst[..] == Triplets(src)
  {
    dst := new byte[|src| * 3](_ => 0);
    assert src[..0] == [];
    for i := 0 to |src|
      invariant |Triplets(src[..i])| == 3 * i
      invariant dst[..3 * i] == Triplets(src[..i])
    {
      TripletsAppend(src[..i], [src[i]]);
      assert src[..i] + [src[i]] == src[..i + 1];
      dst[3 * i] := PERCENT;
      dst[3 * i + 1] := HexDigit(src[i] as nat / 16);
      dst[3 * i + 2] := HexDigit(src[i] as nat % 16);
      assert dst[..3 * (i + 1)] == dst[..3 * i] + Triplet(src[i]);
    }
    assert src[..|src|] == src;
  }

  /** The width of the match at i, left open but for its bytes not being allowed. */
  method MatchWidth(s: Text, i: nat, allowReserved: bool) returns (width: nat)
    requires i < |s| && !Allowed(s[i], allowReserved)
    ensures 1 <= width <= |s| - i
    ensures forall k :: i <= k < i + width ==> !Allowed(s[k], allowReserved)
  {
    width := *;
    if width < 1 || i + width > |s| || exists k :: i <= k < i + width && Allowed(s[k], allowReserved) {
      width := 1;
    }
  }

  /** Replaces every match of the "not allowed" pattern. One match is one UTF-8
      encoded character; how many bytes that is stays open here, so the contract
      holds for every way the bytes that are not allowed fall into matches. */
  method Escape(s: Text, allowReserved: bool) returns (escaped: Text)
    ensures escaped == Escaped(s, allowReserved)
  {
    escaped := [];
    var i := 0;
    while i < |s|
      invariant 0 <= i <= |s|
      invariant escaped == Escaped(s[..i], allowReserved)
    {
      if Allowed(s[i], allowReserved) {
        EscapedStep(s, i, allowReserved);
        escaped := escaped + [s[i]];
        i := i + 1;
      } else {
        var width := MatchWidth(s, i, allowReserved);
        var dst := PctEncode(s[i..i + width]);
        EscapedMatch(s, i, i + width, allowReserved);
        escaped := escaped + dst[..];
        i := i + width;
      }
    }
    assert s[..i] == s;
  }

  lemma {:induction false} TripletsAppend(a: Text, b: Text)
    ensures Triplets(a + b) == Triplets(a) + Triplets(b)
  {
    if a == [] {
      assert a + b == b;
    } else {
      TripletsAppend(a[1..], b);
      assert (a + b)[1..] == a[1..] + b && (a + b)[0] == a[0];
      Associate(Triplet(a[0]), Triplets(a[1..]), Triplets(b));
    }
  }

  lemma {:induction false} EscapedAppend(a: Text, b: Text, allowReserved: bool)
    ensures Escaped(a + b, allowReserved) == Escaped(a, allowReserved) + Escaped(b, allowReserved)
  {
    if a == [] {
      assert a + b == b;
    } else {
      EscapedAppend(a[1..], b, allowReserved);
      assert (a + b)[1..] == a[1..] + b && (a + b)[0] == a[0];
      Associate(EscapedByte(a[0], allowReserved), Escaped(a[1..], allowReserved), Escaped(b, allowReserved));
    }
  }

  lemma {:induction false} EscapedIsTriplets(s: Text, allowReserved: bool)
    requires forall c :: c in s ==> !Allowed(c, allowReserved)
    ensures Escaped(s, allowReserved) == Triplets(s)
  {
    if s != [] {
      EscapedIsTriplets(s[1..], allowReserved);
    }
  }

  lemma EscapedStep(s: Text, i: nat, allowReserved: bool)
    requires i < |s|
    ensures Escaped(s[..i + 1], allowReserved) == Escaped(s[..i], allowReserved) + EscapedByte(s[i], allowReserved)
  {
    assert s[..i + 1] == s[..i] + [s[i]];
    EscapedAppend(s[..i], [s[i]], allowReserved);
    assert Escaped([s[i]], allowReserved) == EscapedByte(s[i], allowReserved) + Escaped([], allowReserved);
  }

  lemma EscapedMatch(s: Text, from: nat, to: nat, allowReserved: bool)
    requires from <= to <= |s|
    requires forall k :: from <= k < to ==> !Allowed(s[k], allowReserved)
    ensures Escaped(s[..to], allowReserved) == Escaped(s[..from], allowReserved) + Triplets(s[from..to])
  {
    assert s[..to] == s[..from] + s[from..to];
    EscapedAppend(s[..from], s[from..to], allowReserved);
    EscapedIsTriplets(s[from..to], allowReserved);
  }

  // ---------- decoding and the shape of the output ----------

  /** Percent-decoding; None when a percent sign is not followed by two hexadecimal digits. */
  function Decode(t: Text): Option<Text> {
    if t == [] then Some([])
    else if t[0] != PERCENT then
      match Decode(t[1..]) { case None => None case Some(rest) => Some([t[0]] + rest) }
    else if |t| >= 3 && IsHex(t[1]) && IsHex(t[2]) then
      match Decode(t[3..]) {
        case None => None
        case Some(rest) => Some([(HexValue(t[1]) * 16 + HexValue(t[2])) as byte] + rest)
      }
    else None
  }

  /** Decoding undoes escaping, in both modes and for every byte text. */
  lemma {:induction false} DecodeUndoesEscape(s: Text, allowReserved: bool)
    ensures Decode(Escaped(s, allowReserved)) == Some(s)
  {
    if s != [] {
      DecodeUndoesEscape(s[1..], allowReserved);
      var e := Escaped(s, allowReserved);
      assert [s[0]] + s[1..] == s;
      if Allowed(s[0], allowReserved) {
        assert e[1..] == Escaped(s[1..], allowReserved);
      } else {
        assert e[3..] == Escaped(s[1..], allowReserved);
      }
    }
  }

  lemma EscapeIsInjective(s: Text, t: Text, allowReserved: bool)
    ensures Escaped(s, allowReserved) == Escaped(t, allowReserved) <==> s == t
  {
    DecodeUndoesEscape(s, allowReserved);
    DecodeUndoesEscape(t, allowReserved);
  }

  /** Allowed bytes, and upper-case triplets that stand for bytes that are not allowed. */
  predicate Canonical(t: Text, allowReserved: bool) {
    t == []
    || (Allowed(t[0], allowReserved) && Canonical(t[1..], allowReserved))
    || (|t| >= 3 && t[0] == PERCENT && IsHex(t[1]) && IsHex(t[2]) && t[1] <= 0x46 && t[2] <= 0x46
        && !Allowed((HexValue(t[1]) * 16 + HexValue(t[2])) as byte, allowReserved)
        && Canonical(t[3..], allowReserved))
  }

  /** The outputs of escape are exactly the canonical texts. */
  lemma {:induction false} EscapeIsCanonical(s: Text, allowReserved: bool)
    ensures Canonical(Escaped(s, allowReserved), allowReserved)
  {
    if s != [] {
      EscapeIsCanonical(s[1..], allowReserved);
      var e := Escaped(s, allowReserved);
      if Allowed(s[0], allowReserved) {
        assert e[1..] == Escaped(s[1..], allowReserved);
      } else {
        assert e[3..] == Escaped(s[1..], allowReserved);
      }
    }
  }

  lemma TripletOfHex(high: byte, low: byte)
    requires IsHex(high) && IsHex(low) && high <= 0x46 && low <= 0x46
    ensures Triplet((HexValue(high) * 16 + HexValue(low)) as byte) == [PERCENT, high, low]
  {
  }

  /** One canonical triplet, and what follows it. */
  lemma TripletIsEscaped(t: Text, allowReserved: bool)
    requires |t| >= 3 && t[0] == PERCENT && IsHex(t[1]) && IsHex(t[2]) && t[1] <= 0x46 && t[2] <= 0x46
    requires !Allowed((HexValue(t[1]) * 16 + HexValue(t[2])) as byte, allowReserved)
    requires Decode(t[3..]).Some? && Escaped(Decode(t[3..]).value, allowReserved) == t[3..]
    ensures Decode(t).Some? && Escaped(Decode(t).value, allowReserved) == t
  {
    var c, rest := (HexValue(t[1]) * 16 + HexValue(t[2])) as byte, Decode(t[3..]).value;
    TripletOfHex(t[1], t[2]);
    assert Decode(t).value == [c] + rest;
    hide HexValue, Triplet, Allowed, Decode;
    assert ([c] + rest)[1..] == rest;
    assert Escaped([c] + rest, allowReserved) == Triplet(c) + t[3..];
    assert t == [PERCENT, t[1], t[2]] + t[3..];
  }

  lemma ByteIsEscaped(t: Text, allowReserved: bool)
    requires t != [] && Allowed(t[0], allowReserved)
    requires Decode(t[1..]).Some? && Escaped(Decode(t[1..]).value, allowReserved) == t[1..]
    ensures Decode(t).Some? && Escaped(Decode(t).value, allowReserved) == t
  {
    assert t[0] != PERCENT;
    var rest := Decode(t[1..]).value;
    assert Decode(t).value == [t[0]] + rest;
    assert ([t[0]] + rest)[1..] == rest && [t[0]] + t[1..] == t;
  }

  lemma {:induction false} CanonicalIsEscaped(t: Text, allowReserved: bool)
    requires Canonical(t, allowReserved)
    ensures Decode(t).Some? && Escaped(Decode(t).value, allowReserved) == t
  {
    if t != [] {
      hide HexValue, Allowed, Decode, Escaped, IsHex;
      if Allowed(t[0], allowReserved) && Canonical(t[1..], allowReserved) {
        CanonicalIsEscaped(t[1..], allowReserved);
        ByteIsEscaped(t, allowReserved);
      } else {
        CanonicalIsEscaped(t[3..], allowReserved);
        TripletIsEscaped(t, allowReserved);
      }
    }
  }

  /** Escaping never shortens and at most triples; a value cut to n bytes renders in at most 3n. */
  lemma {:induction false} EscapeLength(s: Text, allowReserved: bool)
    ensures |s| <= |Escaped(s, allowReserved)| <= 3 * |s|
    ensures BraceFree(Escaped(s, allowReserved))
  {
    if s != [] {
      EscapeLength(s[1..], allowReserved);
    }
  }

  // ---------- the two modes ----------

  predicate HasReserved(s: Text) {
    exists i :: 0 <= i < |s| && Reserved(s[i])
  }

  lemma ReservedStep(s: Text)
    requires s != []
    ensures HasReserved(s) <==> Reserved(s[0]) || HasReserved(s[1..])
  {
    if HasReserved(s) && !Reserved(s[0]) {
      var i :| 0 <= i < |s| && Reserved(s[i]);
      assert Reserved(s[1..][i - 1]);
    }
    if HasReserved(s[1..]) {
      var i :| 0 <= i < |s[1..]| && Reserved(s[1..][i]);
      assert Reserved(s[i + 1]);
    }
  }

  /** The modes differ on exactly the texts with a reserved byte. */
  lemma {:induction false} ReservedMatters(s: Text)
    ensures |Escaped(s, true)| <= |Escaped(s, false)|
    ensures Escaped(s, true) == Escaped(s, false) <==> !HasReserved(s)
  {
    if s != [] {
      ReservedStep(s);
      ReservedMatters(s[1..]);
      SamePieces(EscapedByte(s[0], true), Escaped(s[1..], true), EscapedByte(s[0], false), Escaped(s[1..], false));
    }
  }

  // ---------- the bytes written out ----------

  /** What is left as it is: letters, digits and "-._~"; and, where reserved characters
      are allowed, ":/?#[]@!$&'()*+,;=". All else becomes three bytes. */
  lemma BytesLeftAlone(c: byte)
    ensures var plain := 0x30 <= c <= 0x39 || 0x41 <= c <= 0x5A || 0x61 <= c <= 0x7A
                         || c == 0x2D || c == 0x2E || c == 0x5F || c == 0x7E;
            var reserved := c == 0x21 || 0x23 <= c <= 0x24 || 0x26 <= c <= 0x2C || c == 0x2F || c == 0x3A
                            || c == 0x3B || c == 0x3D || c == 0x3F || c == 0x40 || c == 0x5B || c == 0x5D;
            && (Escaped([c], false) == [c] <==> plain)
            && (Escaped([c], true) == [c] <==> plain || reserved)
            && (Escaped([c], false) != [c] ==> |Escaped([c], false)| == 3)
            && (Escaped([c], true) != [c] ==> |Escaped([c], true)| == 3)
  {
    assert [c][1..] == [];
    assert Escaped([c], false) == EscapedByte(c, false) + [] == EscapedByte(c, false);
    assert Escaped([c], true) == EscapedByte(c, true) + [] == EscapedByte(c, true);
  }

  /** A triplet is the percent sign and two digits of 0123456789ABCDEF. */
  lemma TripletDigits(c: byte)
    ensures |Triplet(c)| == 3 && Triplet(c)[0] == 0x25
    ensures var high, low := c as int / 16, c as int % 16;
            && Triplet(c)[1] as int == high + (if high < 10 then 0x30 else 0x37)
            && Triplet(c)[2] as int == low + if low < 10 then 0x30 else 0x37
  {
  }

  /** Decoding takes small and capital hexadecimal digits, and leaves all else alone. */
  lemma DecodeByte(high: byte, low: byte, rest: Text)
    requires IsHex(high) && IsHex(low) && Decode(rest).Some?
    ensures var h, l := DigitOf(high), DigitOf(low);
            && 0 <= h < 16 && 0 <= l < 16
            && Decode([0x25, high, low] + rest) == Some([(16 * h + l) as byte] + Decode(rest).value)
  {
    var t := [PERCENT, high, low] + rest;
    assert t[3..] == rest;
  }

  function DigitOf(c: byte): int {
    if c <= 0x39 then c as int - 0x30 else if c <= 0x46 then c as int - 0x37 else c as int - 0x57
  }
}
