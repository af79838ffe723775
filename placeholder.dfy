/**
 * The placeholder image builder (src/utils/placeholder.ts): an SVG of the given
 * size and colours showing a caption cut to 30 characters and escaped for XML,
 * returned as a `data:` URI whose body is the SVG put through
 * `encodeURIComponent`.
 *
 * Characters are Unicode scalar values; `text.length` counts UTF-16 code units
 * in JavaScript, which is the same thing for text inside the Basic Multilingual
 * Plane.
 */
module Placeholder {
  import opened Wrappers
  import opened Js

  // ================================================================ caption

  /** The caption: `text` itself up to 30 characters, otherwise its first 30 characters and `...`. */
  function DisplayText(text: string): string {
    if |text| > 30 then text[..30] + "..." else text
  }

  /** A caption never exceeds 33 characters, and a text of at most 30 is shown whole. */
  lemma DisplayTextFacts(text: string)
    ensures |text| <= 30 ==> DisplayText(text) == text
    ensures |text| > 30 ==> |DisplayText(text)| == 33 && DisplayText(text)[..30] == text[..30]
                            && DisplayText(text)[30..] == "..."
    ensures |DisplayText(text)| <= 33
  {
  }

  // ================================================================ escapeXml

  /** `s.replace(/c/g, rep)`. */
  function ReplaceAll(s: string, c: char, rep: string): (r: string)
    ensures c !in s ==> r == s
  {
    if s == [] then []
    else if s[0] == c then rep + ReplaceAll(s[1..], c, rep)
    else [s[0]] + ReplaceAll(s[1..], c, rep)
  }

  /** The five replacements of `escapeXml`, in the order they run: `&` first. */
  function EscapeXml(s: string): string {
    var amp := ReplaceAll(s, '&', "&amp;");
    var lt := ReplaceAll(amp, '<', "&lt;");
    var gt := ReplaceAll(lt, '>', "&gt;");
    var quot := ReplaceAll(gt, '"', "&quot;");
    ReplaceAll(quot, '\'', "&apos;")
  }

  /** The predefined entity of each character that XML reserves (section 4.6 of XML 1.0, Fifth Edition). */
  function EscapeChar(c: char): string {
    if c == '&' then "&amp;"
    else if c == '<' then "&lt;"
    else if c == '>' then "&gt;"
    else if c == '"' then "&quot;"
    else if c == '\'' then "&apos;"
    else [c]
  }

  /** Escaping character by character: the reference `EscapeXml` is proved to agree with. */
  function EscapeEach(s: string): string {
    if s == [] then [] else EscapeChar(s[0]) + EscapeEach(s[1..])
  }

  lemma {:induction false} ReplaceAllAppend(a: string, b: string, c: char, rep: string)
    ensures ReplaceAll(a + b, c, rep) == ReplaceAll(a, c, rep) + ReplaceAll(b, c, rep)
  {
    if a != [] {
      ReplaceAllAppend(a[1..], b, c, rep);
      assert (a + b)[0] == a[0] && (a + b)[1..] == a[1..] + b;
      var head := if a[0] == c then rep else [a[0]];
      assert ReplaceAll(a + b, c, rep) == head + ReplaceAll(a[1..] + b, c, rep);
      assert ReplaceAll(a, c, rep) == head + ReplaceAll(a[1..], c, rep);
    } else {
      assert a + b == b;
    }
  }

  /** `escapeXml` on one character is that character's entity, or the character itself. */
  lemma EscapeXmlChar(c: char)
    ensures EscapeXml([c]) == EscapeChar(c)
  {
    var s := [c];
    assert ReplaceAll(s, '&', "&amp;") == (if c == '&' then "&amp;" else s) by {
      assert s[1..] == [];
    }
    if c == '&' {
      var t := "&amp;";
      assert '<' !in t && '>' !in t && '"' !in t && '\'' !in t;
    } else if c == '<' {
      assert ReplaceAll(s, '<', "&lt;") == "&lt;" by { assert s[1..] == []; }
      assert '>' !in "&lt;" && '"' !in "&lt;" && '\'' !in "&lt;";
    } else if c == '>' {
      assert ReplaceAll(s, '>', "&gt;") == "&gt;" by { assert s[1..] == []; }
      assert '"' !in "&gt;" && '\'' !in "&gt;";
    } else if c == '"' {
      assert ReplaceAll(s, '"', "&quot;") == "&quot;" by { assert s[1..] == []; }
      assert '\'' !in "&quot;";
    } else if c == '\'' {
      assert ReplaceAll(s, '\'', "&apos;") == "&apos;" by { assert s[1..] == []; }
    }
  }

  /**
   * The chain of replacements escapes each character on its own: replacing `&`
   * first means no entity introduced by a later replacement is escaped again.
   */
  lemma {:induction false} EscapeXmlIsEscapeEach(s: string)
    ensures EscapeXml(s) == EscapeEach(s)
  {
    if s != [] {
      EscapeXmlIsEscapeEach(s[1..]);
      var head, tail := [s[0]], s[1..];
      assert s == head + tail;
      EscapeXmlAppend(head, tail);
      EscapeXmlChar(s[0]);
    }
  }

  lemma EscapeXmlAppend(a: string, b: string)
    ensures EscapeXml(a + b) == EscapeXml(a) + EscapeXml(b)
  {
    var amp := ReplaceAll(a + b, '&', "&amp;");
    ReplaceAllAppend(a, b, '&', "&amp;");
    var a1, b1 := ReplaceAll(a, '&', "&amp;"), ReplaceAll(b, '&', "&amp;");
    ReplaceAllAppend(a1, b1, '<', "&lt;");
    var a2, b2 := ReplaceAll(a1, '<', "&lt;"), ReplaceAll(b1, '<', "&lt;");
    ReplaceAllAppend(a2, b2, '>', "&gt;");
    var a3, b3 := ReplaceAll(a2, '>', "&gt;"), ReplaceAll(b2, '>', "&gt;");
    ReplaceAllAppend(a3, b3, '"', "&quot;");
    var a4, b4 := ReplaceAll(a3, '"', "&quot;"), ReplaceAll(b3, '"', "&quot;");
    ReplaceAllAppend(a4, b4, '\'', "&apos;");
  }

  predicate Special(c: char) {
    c == '&' || c == '<' || c == '>' || c == '"' || c == '\''
  }

  /** `escapeXml` changes nothing in a string without any of the five reserved characters. */
  lemma EscapeXmlIdentity(s: string)
    requires forall i :: 0 <= i < |s| ==> !Special(s[i])
    ensures EscapeXml(s) == s
  {
  }

  /** One of the five entities `escapeXml` writes begins at position `i`. */
  predicate StartsEntity(r: string, i: int) {
    || OccursAt(r, "&amp;", i) || OccursAt(r, "&lt;", i) || OccursAt(r, "&gt;", i)
    || OccursAt(r, "&quot;", i) || OccursAt(r, "&apos;", i)
  }

  /** Well-formed character data: no raw `<`, `>`, `"` or `'`, and every `&` begins an entity. */
  predicate WellEscaped(r: string) {
    && (forall i :: 0 <= i < |r| ==> r[i] != '<' && r[i] != '>' && r[i] != '"' && r[i] != '\'')
    && (forall i :: 0 <= i < |r| && r[i] == '&' ==> StartsEntity(r, i))
  }

  lemma WellEscapedChar(c: char)
    ensures WellEscaped(EscapeChar(c))
    ensures forall i :: 0 <= i < |EscapeChar(c)| && EscapeChar(c)[i] == '&' ==> i == 0
  {
    var e := EscapeChar(c);
    if Special(c) {
      EntityWellEscaped(e);
    }
  }

  /** An entity on its own is well-formed, and its only `&` is its first character. */
  lemma EntityWellEscaped(e: string)
    requires e in ["&amp;", "&lt;", "&gt;", "&quot;", "&apos;"]
    ensures WellEscaped(e)
    ensures forall i :: 0 <= i < |e| && e[i] == '&' ==> i == 0
  {
    assert e[0..|e|] == e;
    assert OccursAt(e, e, 0);
    assert e[0] == '&';
    forall i | 1 <= i < |e| ensures e[i] != '&' && e[i] != '<' && e[i] != '>' && e[i] != '"' && e[i] != '\'' {
      assert 'a' <= e[i] <= 'u' || e[i] == ';';
    }
  }

  lemma StartsEntityShift(e: string, r: string, j: int)
    requires StartsEntity(r, j)
    ensures StartsEntity(e + r, |e| + j)
  {
    var s := e + r;
    forall ent | OccursAt(r, ent, j) ensures OccursAt(s, ent, |e| + j) {
      assert s[|e| + j..|e| + j + |ent|] == r[j..j + |ent|];
    }
  }

  lemma StartsEntityExtend(e: string, r: string)
    requires StartsEntity(e, 0)
    ensures StartsEntity(e + r, 0)
  {
    var s := e + r;
    forall ent | OccursAt(e, ent, 0) ensures OccursAt(s, ent, 0) {
      assert s[0..|ent|] == e[0..|ent|];
    }
  }

  lemma WellEscapedAppend(e: string, r: string)
    requires WellEscaped(e) && WellEscaped(r)
    requires forall i :: 0 <= i < |e| && e[i] == '&' ==> i == 0
    ensures WellEscaped(e + r)
  {
    var s := e + r;
    forall i | 0 <= i < |s| && s[i] == '&' ensures StartsEntity(s, i) {
      if i < |e| {
        StartsEntityExtend(e, r);
      } else {
        assert s[i] == r[i - |e|];
        StartsEntityShift(e, r, i - |e|);
      }
    }
  }

  /** What `escapeXml` produces is well-formed XML character data. */
  lemma {:induction false} EscapeXmlWellFormed(s: string)
    ensures WellEscaped(EscapeXml(s))
  {
    EscapeXmlIsEscapeEach(s);
    EscapeEachWellFormed(s);
  }

  lemma {:induction false} EscapeEachWellFormed(s: string)
    ensures WellEscaped(EscapeEach(s))
  {
    if s != [] {
      EscapeEachWellFormed(s[1..]);
      WellEscapedChar(s[0]);
      var e := EscapeChar(s[0]);
      WellEscapedAppend(e, EscapeEach(s[1..]));
    }
  }

  /** Reading the entities back: each of the five entities stands for its character. */
  function Unescape(r: string): string
    decreases |r|
  {
    if r == [] then []
    else if r[0] != '&' then [r[0]] + Unescape(r[1..])
    else if OccursAt(r, "&amp;", 0) then "&" + Unescape(r[5..])
    else if OccursAt(r, "&lt;", 0) then "<" + Unescape(r[4..])
    else if OccursAt(r, "&gt;", 0) then ">" + Unescape(r[4..])
    else if OccursAt(r, "&quot;", 0) then "\"" + Unescape(r[6..])
    else if OccursAt(r, "&apos;", 0) then "'" + Unescape(r[6..])
    else "&" + Unescape(r[1..])
  }

  lemma UnescapeChar(c: char, t: string)
    ensures Unescape(EscapeChar(c) + t) == [c] + Unescape(t)
  {
    var e := EscapeChar(c);
    var r := e + t;
    assert r[..|e|] == e && r[|e|..] == t;
    if !Special(c) {
      assert r[0] == c && r[1..] == t;
    } else {
      assert r[0] == '&' && r[1] == e[1] && r[2] == e[2];
      assert OccursAt(r, e, 0);
    }
  }

  /** Unescaping the output of `escapeXml` gives back its input: nothing is escaped twice. */
  lemma {:induction false} UnescapeEscapeXml(s: string)
    ensures Unescape(EscapeXml(s)) == s
  {
    EscapeXmlIsEscapeEach(s);
    UnescapeEscapeEach(s);
  }

  lemma {:induction false} UnescapeEscapeEach(s: string)
    ensures Unescape(EscapeEach(s)) == s
  {
    if s != [] {
      UnescapeEscapeEach(s[1..]);
      UnescapeChar(s[0], EscapeEach(s[1..]));
      assert s == [s[0]] + s[1..];
    }
  }

  // ================================================================ encodeURIComponent

  /** The characters `encodeURIComponent` leaves alone. */
  predicate Unreserved(c: char) {
    || ('A' <= c <= 'Z') || ('a' <= c <= 'z') || ('0' <= c <= '9')
    || c == '-' || c == '_' || c == '.' || c == '!' || c == '~' || c == '*' || c == '\'' || c == '(' || c == ')'
  }

  type Byte = b: int | 0 <= b < 256

  /** The UTF-8 encoding of a character. */
  function Utf8(c: char): (bs: seq<Byte>)
    ensures 1 <= |bs| <= 4
  {
    var cp := c as int;
    if cp < 0x80 then [cp]
    else if cp < 0x800 then [0xC0 + cp / 64, 0x80 + cp % 64]
    else if cp < 0x10000 then [0xE0 + cp / 4096, 0x80 + (cp / 64) % 64, 0x80 + cp % 64]
    else [0xF0 + cp / 262144, 0x80 + (cp / 4096) % 64, 0x80 + (cp / 64) % 64, 0x80 + cp % 64]
  }

  function HexChar(d: int): char
    requires 0 <= d < 16
  {
    if d < 10 then ('0' as int + d) as char else ('A' as int + d - 10) as char
  }

  predicate IsHexDigit(c: char) {
    ('0' <= c <= '9') || ('A' <= c <= 'F') || ('a' <= c <= 'f')
  }

  function HexValue(c: char): (d: int)
    requires IsHexDigit(c)
    ensures 0 <= d < 16
  {
    if '0' <= c <= '9' then c as int - '0' as int
    else if 'A' <= c <= 'F' then c as int - 'A' as int + 10
    else c as int - 'a' as int + 10
  }

  /** `%XX`, upper-case hexadecimal. */
  function PercentByte(b: Byte): string {
    ['%', HexChar(b / 16), HexChar(b % 16)]
  }

  function PercentBytes(bs: seq<Byte>): string {
    if bs == [] then [] else PercentByte(bs[0]) + PercentBytes(bs[1..])
  }

  function EncodeChar(c: char): string {
    if Unreserved(c) then [c] else PercentBytes(Utf8(c))
  }

  /** `encodeURIComponent(s)`. */
  function EncodeUriComponent(s: string): string {
    if s == [] then [] else EncodeChar(s[0]) + EncodeUriComponent(s[1..])
  }

  /** The result only holds unreserved characters and `%`. */
  lemma {:induction false} EncodeUriComponentSafe(s: string)
    ensures forall i :: 0 <= i < |EncodeUriComponent(s)| ==>
              Unreserved(EncodeUriComponent(s)[i]) || EncodeUriComponent(s)[i] == '%'
  {
    if s != [] {
      EncodeUriComponentSafe(s[1..]);
      var e := EncodeChar(s[0]);
      if !Unreserved(s[0]) {
        PercentBytesSafe(Utf8(s[0]));
        assert forall i :: 0 <= i < |e| ==> Unreserved(e[i]) || e[i] == '%';
      }
      var r := EncodeUriComponent(s);
      assert r == e + EncodeUriComponent(s[1..]);
      forall i | 0 <= i < |r| ensures Unreserved(r[i]) || r[i] == '%' {
        if i >= |e| { assert r[i] == EncodeUriComponent(s[1..])[i - |e|]; }
      }
    }
  }

  /** Each byte becomes `%` and two hexadecimal digits: `%` at every third position, hex digits in between. */
  lemma {:induction false} PercentBytesSafe(bs: seq<Byte>)
    ensures |PercentBytes(bs)| == 3 * |bs|
    ensures forall i :: 0 <= i < |PercentBytes(bs)| ==>
              if i % 3 == 0 then PercentBytes(bs)[i] == '%' else IsHexDigit(PercentBytes(bs)[i])
  {
    if bs != [] {
      PercentBytesSafe(bs[1..]);
      var r, t := PercentBytes(bs), PercentBytes(bs[1..]);
      var p := PercentByte(bs[0]);
      HexRoundTrip(bs[0]);
      assert r == p + t;
      forall i | 0 <= i < |r| ensures if i % 3 == 0 then r[i] == '%' else IsHexDigit(r[i]) {
        if i >= 3 {
          assert r[i] == t[i - 3];
          assert (i - 3) % 3 == i % 3;
        }
      }
    }
  }

  // ---------------------------------------------------------------- decoding, the partner of the encoder

  /** The byte written as `%XX` at position `i`, if there is one. */
  function ByteAt(s: string, i: nat): Option<Byte> {
    if i + 3 <= |s| && s[i] == '%' && IsHexDigit(s[i + 1]) && IsHexDigit(s[i + 2])
    then Some(HexValue(s[i + 1]) * 16 + HexValue(s[i + 2]))
    else None
  }

  predicate IsContinuation(b: Byte) {
    0x80 <= b < 0xC0
  }

  /** How many bytes a UTF-8 sequence with this first byte has (0: not a first byte). */
  function SequenceLength(b0: Byte): nat {
    if b0 < 0x80 then 1
    else if 0xC2 <= b0 < 0xE0 then 2
    else if 0xE0 <= b0 < 0xF0 then 3
    else if 0xF0 <= b0 < 0xF5 then 4
    else 0
  }

  /** The payload bits of the continuation bytes written at sequence positions `k` to `n - 1`; `None` where one is missing or is no continuation byte. */
  function Continuations(s: string, k: nat, n: nat): Option<seq<int>>
    decreases n - k
  {
    if k >= n then Some([])
    else match ByteAt(s, 3 * k)
      case None => None
      case Some(b) =>
        if !IsContinuation(b) then None
        else match Continuations(s, k + 1, n)
          case None => None
          case Some(rest) => Some([b as int - 0x80] + rest)
  }

  /** Appends six bits per continuation byte to the bits taken from the first byte. */
  function Accumulate(v: int, xs: seq<int>): int
    decreases |xs|
  {
    if xs == [] then v else Accumulate(v * 64 + xs[0], xs[1..])
  }

  /** The payload bits of the first byte of an `n`-byte sequence. */
  function LeadBits(b0: Byte, n: nat): int {
    if n == 1 then b0 as int
    else if n == 2 then b0 as int - 0xC0
    else if n == 3 then b0 as int - 0xE0
    else b0 as int - 0xF0
  }

  /** The least code point an `n`-byte sequence may encode (a smaller one is an overlong encoding). */
  function LeastCodePoint(n: nat): int {
    if n == 1 then 0 else if n == 2 then 0x80 else if n == 3 then 0x800 else 0x10000
  }

  /**
   * The code point of the `n`-byte sequence with first byte `b0` written from
   * position 0 of `s`, checked as UTF-8 requires: continuation bytes present, no
   * overlong form, no surrogate, nothing above U+10FFFF.
   */
  function CodePointAt(s: string, b0: Byte, n: nat): (r: Option<int>)
    requires 1 <= n <= 4
    ensures r.Some? ==> 0 <= r.value <= 0x10FFFF && !(0xD800 <= r.value < 0xE000)
  {
    match Continuations(s, 1, n)
    case None => None
    case Some(xs) =>
      var cp := Accumulate(LeadBits(b0, n), xs);
      if LeastCodePoint(n) <= cp <= 0x10FFFF && !(0xD800 <= cp < 0xE000) then Some(cp) else None
  }

  function Prepend(c: char, rest: Option<string>): Option<string> {
    match rest
    case Some(t) => Some([c] + t)
    case None => None
  }

  /** `decodeURIComponent(s)`; `None` where it throws `URIError`. */
  function DecodeUriComponent(s: string): Option<string>
    decreases |s|
  {
    if s == [] then Some([])
    else if s[0] != '%' then Prepend(s[0], DecodeUriComponent(s[1..]))
    else
      match ByteAt(s, 0)
      case None => None
      case Some(b0) =>
        var n := SequenceLength(b0);
        if n == 0 then None
        else
          match CodePointAt(s, b0, n)
          case None => None
          case Some(cp) => Prepend(cp as char, DecodeUriComponent(s[3 * n..]))
  }

  lemma HexRoundTrip(b: Byte)
    ensures IsHexDigit(HexChar(b / 16)) && IsHexDigit(HexChar(b % 16))
    ensures HexValue(HexChar(b / 16)) * 16 + HexValue(HexChar(b % 16)) == b
  {
  }

  lemma {:induction false} PercentBytesRead(bs: seq<Byte>, t: string, k: nat)
    requires k < |bs|
    ensures ByteAt(PercentBytes(bs) + t, 3 * k) == Some(bs[k])
    ensures |PercentBytes(bs)| == 3 * |bs|
  {
    var s := PercentBytes(bs) + t;
    HexRoundTrip(bs[0]);
    if k == 0 {
      PercentBytesLength(bs);
      assert s[0] == '%' && s[1] == HexChar(bs[0] / 16) && s[2] == HexChar(bs[0] % 16);
    } else {
      PercentBytesRead(bs[1..], t, k - 1);
      assert s == PercentByte(bs[0]) + (PercentBytes(bs[1..]) + t);
      var s' := PercentBytes(bs[1..]) + t;
      assert s[3 * k..] == s'[3 * (k - 1)..];
      assert ByteAt(s, 3 * k) == ByteAt(s', 3 * (k - 1)) by {
        assert 3 * k + 3 <= |s| <==> 3 * (k - 1) + 3 <= |s'|;
        if 3 * k + 3 <= |s| {
          assert s[3 * k] == s'[3 * (k - 1)] && s[3 * k + 1] == s'[3 * (k - 1) + 1] && s[3 * k + 2] == s'[3 * (k - 1) + 2];
        }
      }
    }
  }

  lemma {:induction false} PercentBytesLength(bs: seq<Byte>)
    ensures |PercentBytes(bs)| == 3 * |bs|
  {
    if bs != [] { PercentBytesLength(bs[1..]); }
  }

  /** The payload bits of continuation bytes. */
  function Low6(bs: seq<Byte>): (xs: seq<int>)
    ensures |xs| == |bs| && forall j :: 0 <= j < |bs| ==> xs[j] == bs[j] as int - 0x80
  {
    if bs == [] then [] else [bs[0] as int - 0x80] + Low6(bs[1..])
  }

  lemma {:induction false} ContinuationsRead(s: string, bs: seq<Byte>, k: nat, n: nat)
    requires k <= n <= |bs|
    requires forall j :: k <= j < n ==> ByteAt(s, 3 * j) == Some(bs[j]) && IsContinuation(bs[j])
    ensures Continuations(s, k, n) == Some(Low6(bs[k..n]))
    decreases n - k
  {
    if k < n {
      ContinuationsRead(s, bs, k + 1, n);
      assert bs[k..n][0] == bs[k] && bs[k..n][1..] == bs[k + 1..n];
    } else {
      assert bs[k..n] == [];
    }
  }

  lemma DivMod64(x: int)
    requires 0 <= x
    ensures (x / 64) * 64 + x % 64 == x
    ensures (x / 64) / 64 == x / 4096
    ensures (x / 4096) / 64 == x / 262144
  {
  }

  /** Appending the last six bits. */
  lemma AccumulateLast(cp: int)
    requires 0 <= cp
    ensures Accumulate(cp / 64, [cp % 64]) == cp
  {
    DivMod64(cp);
    assert [cp % 64][1..] == [];
  }

  lemma Utf8Two(cp: int)
    requires 0x80 <= cp < 0x800
    ensures Accumulate(cp / 64, [cp % 64]) == cp
  {
    AccumulateLast(cp);
  }

  /** Appending the last twelve bits. */
  lemma AccumulateLastTwo(cp: int)
    requires 0 <= cp
    ensures Accumulate(cp / 4096, [(cp / 64) % 64, cp % 64]) == cp
  {
    var q := cp / 64;
    DivMod64(cp);
    DivMod64(q);
    assert (cp / 4096) * 64 + q % 64 == q;
    var xs := [q % 64, cp % 64];
    assert xs[1..] == [cp % 64];
    assert Accumulate(cp / 4096, xs) == Accumulate(q, [cp % 64]);
    AccumulateLast(cp);
  }

  lemma Utf8Four(cp: int)
    requires 0x10000 <= cp <= 0x10FFFF
    ensures Accumulate(cp / 262144, [(cp / 4096) % 64, (cp / 64) % 64, cp % 64]) == cp
  {
    var q := cp / 64;
    var r := cp / 4096;
    DivMod64(cp);
    DivMod64(q);
    DivMod64(r);
    assert (cp / 262144) * 64 + r % 64 == r;
    var xs := [r % 64, q % 64, cp % 64];
    assert xs[1..] == [q % 64, cp % 64];
    assert Accumulate(cp / 262144, xs) == Accumulate(r, xs[1..]);
    AccumulateLastTwo(cp);
  }

  lemma Utf8Three(cp: int)
    requires 0x800 <= cp < 0x10000
    ensures Accumulate(cp / 4096, [(cp / 64) % 64, cp % 64]) == cp
  {
    AccumulateLastTwo(cp);
  }

  /** The UTF-8 bytes of a character form one sequence of the right length that encodes its code point. */
  lemma Utf8Decodes(c: char)
    ensures var bs := Utf8(c);
            && SequenceLength(bs[0]) == |bs|
            && (forall j :: 1 <= j < |bs| ==> IsContinuation(bs[j]))
            && Accumulate(LeadBits(bs[0], |bs|), Low6(bs[1..])) == c as int
            && LeastCodePoint(|bs|) <= c as int
  {
    var cp := c as int;
    var bs := Utf8(c);
    if cp < 0x80 {
    } else if cp < 0x800 {
      Utf8Two(cp);
      assert Low6(bs[1..]) == [cp % 64];
    } else if cp < 0x10000 {
      Utf8Three(cp);
      assert bs[1..][1..] == [bs[2]];
      assert Low6(bs[1..]) == [(cp / 64) % 64, cp % 64];
    } else {
      Utf8Four(cp);
      assert bs[1..][1..] == [bs[2], bs[3]] && bs[1..][1..][1..] == [bs[3]];
      assert Low6(bs[1..]) == [(cp / 4096) % 64, (cp / 64) % 64, cp % 64];
    }
  }

  lemma DecodeEncodeChar(c: char, t: string)
    ensures DecodeUriComponent(EncodeChar(c) + t) == Prepend(c, DecodeUriComponent(t))
  {
    var e := EncodeChar(c);
    var s := e + t;
    if Unreserved(c) {
      assert s[0] == c && s[1..] == t;
    } else {
      var bs := Utf8(c);
      var n := |bs|;
      PercentBytesLength(bs);
      forall k | 0 <= k < n ensures ByteAt(s, 3 * k) == Some(bs[k]) {
        PercentBytesRead(bs, t, k);
      }
      assert s[0] == '%' by { PercentBytesRead(bs, t, 0); }
      Utf8Decodes(c);
      ContinuationsRead(s, bs, 1, n);
      assert bs[1..n] == bs[1..];
      assert CodePointAt(s, bs[0], n) == Some(c as int);
      assert s[3 * n..] == t;
    }
  }

  /** Decoding the output of `encodeURIComponent` gives back its input. */
  lemma {:induction false} DecodeEncode(s: string)
    ensures DecodeUriComponent(EncodeUriComponent(s)) == Some(s)
  {
    if s != [] {
      DecodeEncode(s[1..]);
      DecodeEncodeChar(s[0], EncodeUriComponent(s[1..]));
      assert [s[0]] + s[1..] == s;
    }
  }

  // ================================================================ the SVG and the URI

  const DefaultBackground: string := "#f0f0f0"
  const DefaultTextColor: string := "#999999"
  const DataUriPrefix: string := "data:image/svg+xml;charset=utf-8,"

  /** An attribute `name="value"`. */
  function Attr(name: string, value: string): string {
    name + "=\"" + value + "\""
  }

  /** The `<svg>` start tag and the line break and indentation after it. */
  function SvgStart(width: int, height: int): string {
    "<svg " + Attr("width", IntToString(width)) + " " + Attr("height", IntToString(height))
    + " xmlns=\"http://www.w3.org/2000/svg\">\n  "
  }

  /** The rectangle that covers the whole image. */
  const RectSize: string := "<rect width=\"100%\" height=\"100%\" "

  /** The background rectangle and the line break and indentation after it. */
  function RectElement(bgColor: string): string {
    RectSize + Attr("fill", bgColor) + "/>\n  "
  }

  /** The attributes that place the caption in the middle of the image. */
  const TextPosition: string := "<text x=\"50%\" y=\"50%\" font-family=\"Arial, sans-serif\" font-size=\"14\" "
  const TextAnchor: string := " text-anchor=\"middle\" dominant-baseline=\"middle\">"

  /** The centred text element holding the (already escaped) caption. */
  function TextElement(textColor: string, caption: string): string {
    TextPosition + Attr("fill", textColor) + TextAnchor + caption + "</text>"
  }

  const SvgEnd: string := "\n</svg>"

  /** The SVG document of the template literal. */
  function Svg(width: int, height: int, text: string, bgColor: string, textColor: string): string {
    SvgStart(width, height) + RectElement(bgColor) + TextElement(textColor, EscapeXml(DisplayText(text))) + SvgEnd
  }

  /** `generatePlaceholder(width, height, text, bgColor?, textColor?)`. */
  function GeneratePlaceholder(width: int, height: int, text: string, bgColor: Option<string>, textColor: Option<string>): string {
    DataUriPrefix + EncodeUriComponent(Svg(width, height, text, bgColor.GetOr(DefaultBackground), textColor.GetOr(DefaultTextColor)))
  }

  lemma OccursInside(a: string, needle: string, b: string)
    ensures Includes(a + needle + b, needle)
  {
    var hay := a + needle + b;
    assert hay[|a|..|a| + |needle|] == needle;
    assert OccursAt(hay, needle, |a|);
  }

  lemma IncludesIn(b: string, a: string, c: string, needle: string)
    requires Includes(b, needle)
    ensures Includes(a + b + c, needle)
  {
    var i :| 0 <= i <= |b| - |needle| && OccursAt(b, needle, i);
    var hay := a + b + c;
    assert hay[|a| + i..|a| + i + |needle|] == b[i..i + |needle|];
    assert OccursAt(hay, needle, |a| + i);
  }

  /** The start tag states the width and the height. */
  lemma SvgStartStates(width: int, height: int)
    ensures Includes(SvgStart(width, height), Attr("width", IntToString(width)))
    ensures Includes(SvgStart(width, height), Attr("height", IntToString(height)))
  {
    var w, h := Attr("width", IntToString(width)), Attr("height", IntToString(height));
    var tail := " xmlns=\"http://www.w3.org/2000/svg\">\n  ";
    assert SvgStart(width, height) == "<svg " + w + (" " + h + tail);
    OccursInside("<svg ", w, " " + h + tail);
    assert SvgStart(width, height) == ("<svg " + w + " ") + h + tail;
    OccursInside("<svg " + w + " ", h, tail);
  }

  /** The rectangle is filled with the background colour. */
  lemma RectElementStates(bgColor: string)
    ensures Includes(RectElement(bgColor), RectSize + Attr("fill", bgColor))
  {
    var r1 := RectSize + Attr("fill", bgColor);
    var re := RectElement(bgColor);
    assert re == r1 + "/>\n  ";
    assert re[0..|r1|] == r1;
    assert OccursAt(re, r1, 0);
  }

  /** The text is drawn in the text colour, and the caption is the whole content of the element. */
  lemma TextElementStates(textColor: string, caption: string)
    ensures Includes(TextElement(textColor, caption), Attr("fill", textColor) + TextAnchor + caption + "</text>")
  {
    var t2 := Attr("fill", textColor) + TextAnchor + caption + "</text>";
    var te := TextElement(textColor, caption);
    assert te == TextPosition + t2;
    assert te[|TextPosition|..|TextPosition| + |t2|] == t2;
    assert OccursAt(te, t2, |TextPosition|);
  }

  /**
   * The SVG states the width and height, the background colour on the rectangle
   * and the text colour verbatim, and its text element holds the escaped display
   * text (which reads back as the display text, by `UnescapeEscapeXml`).
   */
  lemma SvgEmbeds(width: int, height: int, text: string, bgColor: string, textColor: string)
    ensures var svg := Svg(width, height, text, bgColor, textColor);
            && Includes(svg, Attr("width", IntToString(width)))
            && Includes(svg, Attr("height", IntToString(height)))
            && Includes(svg, RectSize + Attr("fill", bgColor))
            && Includes(svg, Attr("fill", textColor) + TextAnchor + EscapeXml(DisplayText(text)) + "</text>")
  {
    var start, rect := SvgStart(width, height), RectElement(bgColor);
    var txt := TextElement(textColor, EscapeXml(DisplayText(text)));
    var svg := Svg(width, height, text, bgColor, textColor);
    SvgParts(start, rect, txt, svg);
    SvgStartStates(width, height);
    IncludesIn(start, [], rect + txt + SvgEnd, Attr("width", IntToString(width)));
    IncludesIn(start, [], rect + txt + SvgEnd, Attr("height", IntToString(height)));
    RectElementStates(bgColor);
    IncludesIn(rect, start, txt + SvgEnd, RectSize + Attr("fill", bgColor));
    TextElementStates(textColor, EscapeXml(DisplayText(text)));
    IncludesIn(txt, start + rect, SvgEnd, Attr("fill", textColor) + TextAnchor + EscapeXml(DisplayText(text)) + "</text>");
  }

  lemma SvgParts(start: string, rect: string, txt: string, svg: string)
    requires svg == start + rect + txt + SvgEnd
    ensures svg == [] + start + (rect + txt + SvgEnd)
    ensures svg == start + rect + (txt + SvgEnd)
    ensures svg == (start + rect) + txt + SvgEnd
  {
  }

  /**
   * The result is the `data:` prefix followed by the encoded SVG, which decodes
   * back to the SVG; omitted colours are `#f0f0f0` for the background and
   * `#999999` for the text.
   */
  lemma GeneratePlaceholderShape(width: int, height: int, text: string, bgColor: Option<string>, textColor: Option<string>)
    ensures var r := GeneratePlaceholder(width, height, text, bgColor, textColor);
            var svg := Svg(width, height, text, bgColor.GetOr("#f0f0f0"), textColor.GetOr("#999999"));
            && r[..|DataUriPrefix|] == "data:image/svg+xml;charset=utf-8,"
            && DecodeUriComponent(r[|DataUriPrefix|..]) == Some(svg)
            && (forall i :: |DataUriPrefix| <= i < |r| ==> Unreserved(r[i]) || r[i] == '%')
  {
    var svg := Svg(width, height, text, bgColor.GetOr(DefaultBackground), textColor.GetOr(DefaultTextColor));
    var r := GeneratePlaceholder(width, height, text, bgColor, textColor);
    var enc := EncodeUriComponent(svg);
    assert r == DataUriPrefix + enc;
    assert r[|DataUriPrefix|..] == enc;
    DecodeEncode(svg);
    EncodeUriComponentSafe(svg);
    forall i | |DataUriPrefix| <= i < |r| ensures Unreserved(r[i]) || r[i] == '%' {
      assert r[i] == enc[i - |DataUriPrefix|];
    }
  }
}
