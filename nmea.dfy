/** NMEA 0183 sentence framing as pynmea2 renders a talker sentence:
    `$`, the talker and sentence type, the comma-separated data fields, `*`,
    and the checksum as two uppercase hexadecimal digits. Also the reading
    a receiver applies, which checks the checksum and splits the fields. */
module Nmea {
  import opened Text

  type Byte = bv8

  predicate IsAscii(s: string) { forall i :: 0 <= i < |s| ==> s[i] as int < 128 }

  /** `text.encode()` of an ASCII text: one byte per character, its code. */
  function AsciiBytes(s: string): (b: seq<Byte>)
    requires IsAscii(s)
    ensures |b| == |s|
    ensures forall i :: 0 <= i < |s| ==> b[i] as int == s[i] as int
  {
    seq(|s|, i requires 0 <= i < |s| => s[i] as int as Byte)
  }

  /** How a receiver reads the bytes of a datagram back as text. */
  function AsciiText(b: seq<Byte>): (s: string)
    ensures |s| == |b|
    ensures forall i :: 0 <= i < |b| ==> s[i] as int == b[i] as int
  {
    seq(|b|, i requires 0 <= i < |b| => b[i] as int as char)
  }

  /** Decoding the encoded text gives the text back. */
  lemma AsciiRoundTrip(s: string)
    requires IsAscii(s)
    ensures AsciiText(AsciiBytes(s)) == s
  {
    var t := AsciiText(AsciiBytes(s));
    assert forall i :: 0 <= i < |s| ==> t[i] == s[i];
  }

  /** The NMEA 0183 checksum: the exclusive-or of all the bytes. */
  function Checksum(b: seq<Byte>): Byte
  {
    if b == [] then 0 else Checksum(b[..|b| - 1]) ^ b[|b| - 1]
  }

  /** The checksum of a concatenation combines the checksums of the parts. */
  lemma {:induction false} ChecksumConcat(a: seq<Byte>, b: seq<Byte>)
    ensures Checksum(a + b) == Checksum(a) ^ Checksum(b)
    decreases |b|
  {
    if b == [] {
      assert a + b == a;
    } else {
      var b' := b[..|b| - 1];
      assert (a + b)[..|a + b| - 1] == a + b';
      ChecksumConcat(a, b');
    }
  }

  /** Changing any one byte changes the checksum. */
  lemma ChecksumDetectsOneChange(b: seq<Byte>, i: nat, x: Byte)
    requires i < |b| && x != b[i]
    ensures Checksum(b[i := x]) != Checksum(b)
  {
    var pre, post := b[..i], b[i + 1..];
    assert b == pre + [b[i]] + post;
    assert b[i := x] == pre + [x] + post;
    ChecksumConcat(pre + [b[i]], post);
    ChecksumConcat(pre + [x], post);
    ChecksumConcat(pre, [b[i]]);
    ChecksumConcat(pre, [x]);
    assert Checksum([b[i]]) == b[i] by { assert [b[i]][..0] == []; }
    assert Checksum([x]) == x by { assert [x][..0] == []; }
  }

  /** Appending the checksum to the bytes it covers gives a checksum of zero. */
  lemma ChecksumCancels(b: seq<Byte>)
    ensures Checksum(b + [Checksum(b)]) == 0
  {
    assert (b + [Checksum(b)])[..|b|] == b;
  }

  const HexDigits := "0123456789ABCDEF"

  /** `'%02X' % v`: two uppercase hexadecimal digits. */
  function Hex2(v: Byte): string
  {
    [HexDigits[v as int / 16], HexDigits[v as int % 16]]
  }

  /** The value of an uppercase hexadecimal digit. */
  function HexValue(c: char): Option<nat>
  {
    if '0' <= c <= '9' then Some(c as int - '0' as int)
    else if 'A' <= c <= 'F' then Some(c as int - 'A' as int + 10)
    else None
  }

  /** Reads two hexadecimal digits as a byte. */
  function ReadHex2(s: string): Option<Byte>
  {
    if |s| == 2 && HexValue(s[0]).Some? && HexValue(s[1]).Some? then
      var v := HexValue(s[0]).value * 16 + HexValue(s[1]).value;
      if v < 256 then Some(v as Byte) else None
    else None
  }

  lemma HexDigitValue(d: nat)
    requires d < 16
    ensures HexValue(HexDigits[d]) == Some(d)
  {
  }

  /** `%02X` gives two uppercase hexadecimal digits that read back as the byte. */
  lemma Hex2RoundTrip(v: Byte)
    ensures |Hex2(v)| == 2 && IsAscii(Hex2(v))
    ensures forall i :: 0 <= i < 2 ==> Hex2(v)[i] in HexDigits
    ensures ReadHex2(Hex2(v)) == Some(v)
  {
    var h, l := v as int / 16, v as int % 16;
    HexDigitValue(h);
    HexDigitValue(l);
    assert h * 16 + l == v as int;
  }

  predicate NoComma(s: string) { forall i :: 0 <= i < |s| ==> s[i] != ',' }

  /** `','.join(parts)`. */
  function Join(parts: seq<string>): string
    requires |parts| >= 1
  {
    if |parts| == 1 then parts[0] else parts[0] + "," + Join(parts[1..])
  }

  /** `s.split(',')`: the text between commas, always at least one part. */
  function SplitFields(s: string): (parts: seq<string>)
    ensures |parts| >= 1
  {
    if s == [] then [""]
    else if s[0] == ',' then [""] + SplitFields(s[1..])
    else var rest := SplitFields(s[1..]); [[s[0]] + rest[0]] + rest[1..]
  }

  lemma {:induction false} SplitNoComma(a: string, tail: string)
    requires NoComma(a)
    ensures SplitFields(a + tail) ==
      [a + SplitFields(tail)[0]] + SplitFields(tail)[1..]
    decreases |a|
  {
    var t := SplitFields(tail);
    if a != [] {
      assert (a + tail)[0] == a[0] != ',';
      assert (a + tail)[1..] == a[1..] + tail;
      SplitNoComma(a[1..], tail);
      assert [a[0]] + (a[1..] + t[0]) == a + t[0];
    } else {
      assert a + tail == tail;
      assert a + t[0] == t[0];
      assert t == [t[0]] + t[1..];
    }
  }

  /** Splitting the joined text at commas gives the parts back when no part
      contains a comma. */
  lemma {:induction false} SplitJoin(parts: seq<string>)
    requires |parts| >= 1
    requires forall i :: 0 <= i < |parts| ==> NoComma(parts[i])
    ensures SplitFields(Join(parts)) == parts
    decreases |parts|
  {
    if |parts| == 1 {
      SplitNoComma(parts[0], "");
      assert parts[0] + "" == parts[0];
      assert SplitFields("") == [""];
    } else {
      var rest := Join(parts[1..]);
      SplitJoin(parts[1..]);
      SplitNoComma(parts[0], "," + rest);
      var cr := "," + rest;
      assert Join(parts) == parts[0] + cr;
      assert cr[0] == ',' && cr[1..] == rest;
      assert SplitFields(cr) == [""] + parts[1..];
      assert parts[0] + "" == parts[0];
      assert parts == [parts[0]] + parts[1..];
    }
  }

  lemma {:induction false} JoinAscii(parts: seq<string>)
    requires |parts| >= 1
    ensures (forall i :: 0 <= i < |parts| ==> IsAscii(parts[i])) ==> IsAscii(Join(parts))
    decreases |parts|
  {
    if |parts| > 1 && forall i :: 0 <= i < |parts| ==> IsAscii(parts[i]) {
      assert forall i :: 0 <= i < |parts| - 1 ==> parts[1..][i] == parts[i + 1];
      JoinAscii(parts[1..]);
      var r := Join(parts[1..]);
      assert Join(parts) == parts[0] + ("," + r);
      assert forall i :: |parts[0]| < i < |Join(parts)| ==> Join(parts)[i] == r[i - |parts[0]| - 1];
    }
  }

  /** A sentence: talker identifier, sentence type and data fields. */
  datatype Sentence = Sentence(talker: string, kind: string, fields: seq<string>)

  /** The text between `$` and `*`: identifier then the fields, comma-joined. */
  function Body(s: Sentence): (body: string)
    ensures Framable(s) ==> IsAscii(body)
  {
    var parts := [s.talker + s.kind] + s.fields;
    assert forall i :: 1 <= i < |parts| ==> parts[i] == s.fields[i - 1];
    JoinAscii(parts);
    Join(parts)
  }

  /** The fields of a sentence may be framed: ASCII, without commas, and a
      two-letter talker with a three-letter type. */
  predicate Framable(s: Sentence)
  {
    |s.talker| == 2 && |s.kind| == 3 &&
    IsAscii(s.talker + s.kind) && NoComma(s.talker + s.kind) &&
    forall i :: 0 <= i < |s.fields| ==> IsAscii(s.fields[i]) && NoComma(s.fields[i])
  }

  /** `str(msg)` of a pynmea2 sentence: `$`, the body, `*`, `%02X` checksum. */
  function Render(s: Sentence): string
    requires Framable(s)
  {
    "$" + Body(s) + "*" + Hex2(Checksum(AsciiBytes(Body(s))))
  }

  /** A receiver's reading: `$`, a body, `*` and two hexadecimal digits equal
      to the body's checksum; the body splits at commas into the five-letter
      identifier and the data fields. Anything else is rejected. */
  function Parse(text: string): Option<Sentence>
  {
    if |text| >= 4 && text[0] == '$' && text[|text| - 3] == '*' then
      var body := text[1..|text| - 3];
      if IsAscii(body) && ReadHex2(text[|text| - 2..]) == Some(Checksum(AsciiBytes(body))) then
        var parts := SplitFields(body);
        if |parts[0]| == 5 then Some(Sentence(parts[0][..2], parts[0][2..], parts[1..])) else None
      else None
    else None
  }

  lemma RenderShape(s: Sentence)
    requires Framable(s)
    ensures var t := Render(s);
      |t| >= 4 && t[0] == '$' && t[|t| - 3] == '*' &&
      t[1..|t| - 3] == Body(s) && t[|t| - 2..] == Hex2(Checksum(AsciiBytes(Body(s))))
  {
    var body := Body(s);
    var hh := Hex2(Checksum(AsciiBytes(body)));
    var t := "$" + body + "*" + hh;
    assert t[1..|t| - 3] == body;
    assert t[|t| - 2..] == hh;
  }

  /** A rendered sentence is ASCII text, so `.encode()` sends one byte per character. */
  lemma RenderAscii(s: Sentence)
    requires Framable(s)
    ensures IsAscii(Render(s))
  {
    var body := Body(s);
    var hh := Hex2(Checksum(AsciiBytes(body)));
    Hex2RoundTrip(Checksum(AsciiBytes(body)));
    var t := "$" + body + "*" + hh;
    forall i | 0 <= i < |t| ensures t[i] as int < 128 {
      if 1 <= i < |t| - 3 {
        assert t[i] == body[i - 1];
      } else if i >= |t| - 2 {
        assert t[i] == hh[i - |t| + 2];
      }
    }
  }

  /** What is sent reads back as the sentence that was rendered: the checksum
      matches and the fields come back in order, none lost or merged. */
  lemma ParseRender(s: Sentence)
    requires Framable(s)
    ensures Parse(Render(s)) == Some(s)
  {
    var body := Body(s);
    RenderShape(s);
    Hex2RoundTrip(Checksum(AsciiBytes(body)));
    var parts := [s.talker + s.kind] + s.fields;
    assert forall i :: 1 <= i < |parts| ==> parts[i] == s.fields[i - 1];
    SplitJoin(parts);
    assert parts[0][..2] == s.talker && parts[0][2..] == s.kind;
    assert parts[1..] == s.fields;
  }

  /** A frame whose two hexadecimal digits do not match its body is rejected. */
  lemma ParseRejectsMismatch(body: string, hh: string)
    requires IsAscii(body) && |hh| == 2
    requires ReadHex2(hh) != Some(Checksum(AsciiBytes(body)))
    ensures Parse("$" + body + "*" + hh) == None
  {
    var u := "$" + body + "*" + hh;
    assert u[1..|u| - 3] == body;
    assert u[|u| - 2..] == hh;
  }

  /** Changing one character of an ASCII text changes only the byte at that
      position. */
  lemma AsciiBytesUpdate(body: string, i: nat, c: char)
    requires IsAscii(body) && i < |body| && c as int < 128
    ensures IsAscii(body[i := c])
    ensures var u := AsciiBytes(body[i := c]);
      u == AsciiBytes(body)[i := u[i]] && u[i] as int == c as int
  {
    var bad := body[i := c];
    assert IsAscii(bad);
    var u := AsciiBytes(bad);
    var v := AsciiBytes(body)[i := u[i]];
    assert forall k :: 0 <= k < |u| ==> u[k] == v[k];
  }

  /** Changing one character of an ASCII body changes its checksum. */
  lemma CorruptedChecksumDiffers(body: string, i: nat, c: char)
    requires IsAscii(body)
    requires i < |body| && c as int < 128 && c != body[i]
    ensures IsAscii(body[i := c])
    ensures Checksum(AsciiBytes(body[i := c])) != Checksum(AsciiBytes(body))
  {
    hide Checksum, AsciiBytes;
    var bytes := AsciiBytes(body);
    AsciiBytesUpdate(body, i, c);
    var u := AsciiBytes(body[i := c]);
    assert u[i] as int != bytes[i] as int;
    ChecksumDetectsOneChange(bytes, i, u[i]);
  }

  /** A frame whose body has one character changed (to another ASCII
      character) in transit after the checksum was computed is rejected by
      the receiver. */
  lemma ParseRejectsCorruptedBody(body: string, i: nat, c: char)
    requires IsAscii(body)
    requires i < |body| && c as int < 128 && c != body[i]
    ensures Parse("$" + body[i := c] + "*" + Hex2(Checksum(AsciiBytes(body)))) == None
  {
    CorruptedChecksumDiffers(body, i, c);
    Hex2RoundTrip(Checksum(AsciiBytes(body)));
    hide Parse, AsciiBytes, Checksum, Hex2;
    ParseRejectsMismatch(body[i := c], Hex2(Checksum(AsciiBytes(body))));
  }
}
