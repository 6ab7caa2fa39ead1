/**
 Connection links: how quick_link.py packs a payload into a vkturnproxy:// URL, and how the importer of
 cmd/vk-turn-socks/importcfg.go gets the bytes back (base64 of sections 4 and 5 of RFC 4648).
 */
module LinkCodec {
  import opened Basics

  type sextet = v: int | 0 <= v < 64

  // ---------- the alphabet ----------

  function Symbol(v: sextet): char {
    if v < 26 then ('A' as int + v) as char
    else if v < 52 then ('a' as int + v - 26) as char
    else if v < 62 then ('0' as int + v - 52) as char
    else if v == 62 then '+'
    else '/'
  }

  function Value(c: char): Option<sextet> {
    if 'A' <= c <= 'Z' then Some(c as int - 'A' as int)
    else if 'a' <= c <= 'z' then Some(c as int - 'a' as int + 26)
    else if '0' <= c <= '9' then Some(c as int - '0' as int + 52)
    else if c == '+' then Some(62)
    else if c == '/' then Some(63)
    else None
  }

  /** A character as the base64 decoder sees it. */
  datatype Sym = Digit(v: sextet) | Pad | Bad

  function Classify(c: char): Sym {
    var v := Value(c);
    if v.Some? then Digit(v.value) else if c == '=' then Pad else Bad
  }

  function Spell(x: Sym): char {
    match x
    case Digit(v) => Symbol(v)
    case Pad => '='
    case Bad => '?'
  }

  function ClassifyAll(s: string): (r: seq<Sym>)
    ensures |r| == |s|
  {
    seq(|s|, i requires 0 <= i < |s| => Classify(s[i]))
  }

  function SpellAll(x: seq<Sym>): (r: string)
    ensures |r| == |x|
  {
    seq(|x|, i requires 0 <= i < |x| => Spell(x[i]))
  }

  // ---------- encoding: quick_link.py ----------

  /** Three bytes as four sextets. */
  function S0(a: byte): sextet { a / 4 }
  function S1(a: byte, b: byte): sextet { a % 4 * 16 + b / 16 }
  function S2(b: byte, c: byte): sextet { b % 16 * 4 + c / 64 }
  function S3(c: byte): sextet { c % 64 }

  function Quad(a: byte, b: byte, c: byte): (r: seq<Sym>)
    ensures |r| == 4
  {
    [Digit(S0(a)), Digit(S1(a, b)), Digit(S2(b, c)), Digit(S3(c))]
  }

  /** The encoding without its padding. */
  function Core(raw: seq<byte>): (r: seq<Sym>)
    ensures |r| == (4 * |raw| + 2) / 3
    ensures forall i :: 0 <= i < |r| ==> r[i].Digit?
  {
    if |raw| == 0 then []
    else if |raw| == 1 then Quad(raw[0], 0, 0)[..2]
    else if |raw| == 2 then Quad(raw[0], raw[1], 0)[..3]
    else Quad(raw[0], raw[1], raw[2]) + Core(raw[3..])
  }

  function Padding(n: nat): (r: seq<Sym>)
    ensures |r| == n
  {
    seq(n, i => Pad)
  }

  function PadLen(n: nat): nat { (3 - n % 3) % 3 }

  /** base64.b64encode */
  function Std(raw: seq<byte>): string {
    SpellAll(Core(raw) + Padding(PadLen(|raw|)))
  }

  function ReplaceAll(s: string, from: char, to: char): (r: string)
    ensures |r| == |s|
  {
    seq(|s|, i requires 0 <= i < |s| => if s[i] == from then to else s[i])
  }

  /** The URL-safe alphabet. */
  function UrlSafe(s: string): (r: string)
    ensures |r| == |s|
  {
    ReplaceAll(ReplaceAll(s, '+', '-'), '/', '_')
  }

  /** s.rstrip("=") */
  function Strip(s: string): string {
    if s != [] && s[|s| - 1] == '=' then Strip(s[..|s| - 1]) else s
  }

  const PREFIX := "vkturnproxy://import?data="

  function BuildLink(raw: seq<byte>): string { PREFIX + Strip(UrlSafe(Std(raw))) }

  // ---------- decoding: importcfg.go ----------

  /** White space as strings.TrimSpace sees it, in the Latin-1 range. */
  predicate IsSpace(c: char) {
    c == ' ' || '\t' <= c <= '\r' || c as int == 0x85 || c as int == 0xA0
  }

  function TrimLeft(s: string): string {
    if s != [] && IsSpace(s[0]) then TrimLeft(s[1..]) else s
  }

  function TrimRight(s: string): string {
    if s != [] && IsSpace(s[|s| - 1]) then TrimRight(s[..|s| - 1]) else s
  }

  function TrimSpace(s: string): string { TrimRight(TrimLeft(s)) }

  function Equals(n: nat): (r: string)
    ensures |r| == n
  {
    seq(n, i => '=')
  }

  /** Line breaks are skipped by Go's decoder wherever they stand. */
  function WithoutBreaks(s: string): string {
    if s == [] then [] else
      (if s[0] == '\r' || s[0] == '\n' then [] else [s[0]]) + WithoutBreaks(s[1..])
  }

  /** Four sextets as three bytes. */
  function B0(v0: sextet, v1: sextet): byte { v0 * 4 + v1 / 16 }
  function B1(v1: sextet, v2: sextet): byte { v1 % 16 * 16 + v2 / 4 }
  function B2(v2: sextet, v3: sextet): byte { v2 % 4 * 64 + v3 }

  function DecodeQuads(s: seq<Sym>): Option<seq<byte>> {
    if s == [] then Some([])
    else if |s| < 4 || !s[0].Digit? || !s[1].Digit? then None
    else if s[2].Digit? && s[3].Digit? then
      var rest := DecodeQuads(s[4..]);
      if rest.None? then None else Some([B0(s[0].v, s[1].v), B1(s[1].v, s[2].v), B2(s[2].v, s[3].v)] + rest.value)
    else if |s| > 4 || s[3] != Pad then None
    else if s[2].Digit? then Some([B0(s[0].v, s[1].v), B1(s[1].v, s[2].v)])
    else if s[2] == Pad then Some([B0(s[0].v, s[1].v)])
    else None
  }

  /** base64.StdEncoding.DecodeString */
  function StdDecode(s: string): Option<seq<byte>> { DecodeQuads(ClassifyAll(WithoutBreaks(s))) }

  function Repad(s: string): string { s + Equals((4 - |s| % 4) % 4) }

  /** `decodeFlexibleBase64` */
  function DecodeFlexible(s: string): Option<seq<byte>> {
    StdDecode(Repad(ReplaceAll(ReplaceAll(TrimSpace(s), '-', '+'), '_', '/')))
  }

  predicate Base64ish(c: char) {
    Value(c).Some? || c == '-' || c == '_' || c == '='
  }

  predicate LooksBase64(s: string) {
    |s| >= 16 && forall i :: 0 <= i < |s| ==> Base64ish(s[i])
  }

  function Lower(s: string): (r: string)
    ensures |r| == |s|
  {
    seq(|s|, i requires 0 <= i < |s| => if 'A' <= s[i] <= 'Z' then (s[i] as int + 32) as char else s[i])
  }

  /** Position of the first occurrence of pat, or -1 (strings.Index). */
  function Index(s: string, pat: string): (r: int)
    ensures r >= 0 ==> r + |pat| <= |s|
    decreases |s|
  {
    if pat <= s then 0
    else if s == [] then -1
    else
      var rest := Index(s[1..], pat);
      if rest < 0 then -1 else rest + 1
  }

  const SCHEME := "vkturnproxy://"

  /** What an import source turns out to be: a payload, a file to read, or an error. */
  datatype Input = Payload(raw: seq<byte>) | File(path: string) | NoData | BadBase64

  function Decoded(b64: string): Input {
    var d := DecodeFlexible(b64);
    if d.Some? then Payload(d.value) else BadBase64
  }

  function DataOf(link: string): Option<string> {
    var i := Index(link, "data=");
    if i < 0 then None else Some(UpToAmp(link[i + 5..]))
  }

  function UpToAmp(b64: string): string {
    var amp := Index(b64, "&");
    if amp >= 0 then b64[..amp] else b64
  }

  /** The first half of `loadSettings`. */
  function InputOf(src: string): Input { InputOfTrimmed(TrimSpace(src)) }

  function InputOfTrimmed(trimmed: string): Input {
    if SCHEME <= Lower(trimmed) then
      var data := DataOf(trimmed);
      if data.None? then NoData else Decoded(data.value)
    else if '/' !in trimmed && '\\' !in trimmed && LooksBase64(trimmed) then Decoded(trimmed)
    else File(trimmed)
  }

  // ---------- the imperative importer ----------

  /** `looksBase64` */
  method ScanBase64(s: string) returns (ok: bool)
    ensures ok == LooksBase64(s)
  {
    if |s| < 16 {
      return false;
    }
    for i := 0 to |s|
      invariant forall k :: 0 <= k < i ==> Base64ish(s[k])
    {
      var r := s[i];
      if !('A' <= r <= 'Z' || 'a' <= r <= 'z' || '0' <= r <= '9' ||
           r == '+' || r == '/' || r == '-' || r == '_' || r == '=') {
        return false;
      }
    }
    ok := true;
  }

  /** `loadSettings` up to the raw bytes. */
  method LoadInput(src: string) returns (r: Input)
    ensures r == InputOf(src)
  {
    var trimmed := TrimSpace(src);
    var lower := Lower(trimmed);
    var bare := false;
    if '/' !in trimmed && '\\' !in trimmed {
      bare := ScanBase64(trimmed);
    }
    if SCHEME <= lower || bare {
      var b64 := trimmed;
      if SCHEME <= lower {
        var i := Index(trimmed, "data=");
        if i < 0 {
          return NoData;
        }
        b64 := trimmed[i + 5..];
        var amp := Index(b64, "&");
        if amp >= 0 { b64 := b64[..amp]; }
      }
      var dec := DecodeFlexible(b64);
      if dec.None? {
        return BadBase64;
      }
      return Payload(dec.value);
    }
    r := File(trimmed);
  }

  // ---------- shape of the encoding ----------

  /** The unpadded text. */
  function Text(raw: seq<byte>): string { SpellAll(Core(raw)) }

  lemma SpellPadded(c: seq<Sym>, n: nat)
    ensures SpellAll(c + Padding(n)) == SpellAll(c) + Equals(n)
  {
  }

  lemma RepadText(s: string, n: nat)
    requires n == (4 - |s| % 4) % 4
    ensures Repad(s) == s + Equals(n) == Repad(s + Equals(n))
  {
    assert s + Equals(n) + Equals(0) == s + Equals(n);
  }

  lemma StdIsTextPadded(raw: seq<byte>)
    ensures Std(raw) == Text(raw) + Equals(PadLen(|raw|))
    ensures Std(raw) == Repad(Text(raw)) == Repad(Std(raw))
  {
    CorePadding(|raw|);
    SpellPadded(Core(raw), PadLen(|raw|));
    RepadText(Text(raw), PadLen(|raw|));
  }

  lemma CorePadding(n: nat)
    ensures var len := (4 * n + 2) / 3; PadLen(n) == (4 - len % 4) % 4 && (len + PadLen(n)) % 4 == 0
  {
  }

  lemma StripOne(t: string)
    requires t != [] && t[|t| - 1] == '='
    ensures Strip(t) == Strip(t[..|t| - 1])
  {
  }

  lemma {:induction false} StripEquals(s: string, n: nat)
    requires s == [] || s[|s| - 1] != '='
    ensures Strip(s + Equals(n)) == s
  {
    if n == 0 {
      assert s + Equals(0) == s;
    } else {
      StripEquals(s, n - 1);
      var t := s + Equals(n);
      StripOne(t);
      assert t[..|t| - 1] == s + Equals(n - 1);
    }
  }

  lemma StripStd(raw: seq<byte>)
    ensures Strip(UrlSafe(Std(raw))) == UrlSafe(Text(raw))
    ensures Strip(Std(raw)) == Text(raw)
  {
    StdIsTextPadded(raw);
    var c, n := Text(raw), PadLen(|raw|);
    assert UrlSafe(c + Equals(n)) == UrlSafe(c) + Equals(n);
    StripEquals(UrlSafe(c), n);
    StripEquals(c, n);
  }

  // ---------- decoding undoes encoding ----------

  lemma BytesOfSextets(a: byte, b: byte, c: byte)
    ensures B0(S0(a), S1(a, b)) == a && B1(S1(a, b), S2(b, c)) == b && B2(S2(b, c), S3(c)) == c
  {
  }

  lemma DigitsThen(s: seq<Sym>, d: seq<byte>)
    requires |s| >= 4 && s[0].Digit? && s[1].Digit? && s[2].Digit? && s[3].Digit?
    requires DecodeQuads(s[4..]) == Some(d)
    ensures DecodeQuads(s) == Some([B0(s[0].v, s[1].v), B1(s[1].v, s[2].v), B2(s[2].v, s[3].v)] + d)
  {
  }

  lemma QuadThen(a: byte, b: byte, c: byte, rest: seq<Sym>, d: seq<byte>)
    requires DecodeQuads(rest) == Some(d)
    ensures DecodeQuads(Quad(a, b, c) + rest) == Some([a, b, c] + d)
  {
    var s := Quad(a, b, c) + rest;
    assert s[4..] == rest;
    assert s[0] == Digit(S0(a)) && s[1] == Digit(S1(a, b)) && s[2] == Digit(S2(b, c)) && s[3] == Digit(S3(c));
    DigitsThen(s, d);
    BytesOfSextets(a, b, c);
  }

  lemma FinalQuad(v0: sextet, v1: sextet, v2: sextet)
    ensures DecodeQuads([Digit(v0), Digit(v1), Pad, Pad]) == Some([B0(v0, v1)])
    ensures DecodeQuads([Digit(v0), Digit(v1), Digit(v2), Pad]) == Some([B0(v0, v1), B1(v1, v2)])
  {
  }

  lemma LastByte(a: byte, b: byte, c: byte)
    ensures DecodeQuads(Quad(a, b, c)[..2] + Padding(2)) == Some([a])
  {
    BytesOfSextets(a, b, c);
    FinalQuad(S0(a), S1(a, b), S2(b, c));
    assert Quad(a, b, c)[..2] + Padding(2) == [Digit(S0(a)), Digit(S1(a, b)), Pad, Pad];
  }

  lemma LastTwoBytes(a: byte, b: byte, c: byte)
    ensures DecodeQuads(Quad(a, b, c)[..3] + Padding(1)) == Some([a, b])
  {
    BytesOfSextets(a, b, c);
    FinalQuad(S0(a), S1(a, b), S2(b, c));
    assert Quad(a, b, c)[..3] + Padding(1) == [Digit(S0(a)), Digit(S1(a, b)), Digit(S2(b, c)), Pad];
  }

  lemma PadLenPeriodic(n: nat)
    ensures PadLen(n + 3) == PadLen(n)
  {
  }

  lemma Reassociate(q: seq<Sym>, c: seq<Sym>, p: seq<Sym>)
    ensures q + c + p == q + (c + p)
  {
  }

  lemma FirstThree(raw: seq<byte>)
    requires |raw| > 2
    ensures raw == [raw[0], raw[1], raw[2]] + raw[3..]
  {
  }

  lemma {:induction false} DecodeCore(raw: seq<byte>)
    ensures DecodeQuads(Core(raw) + Padding(PadLen(|raw|))) == Some(raw)
  {
    if |raw| > 2 {
      var q, c, p := Quad(raw[0], raw[1], raw[2]), Core(raw[3..]), Padding(PadLen(|raw| - 3));
      DecodeCore(raw[3..]);
      PadLenPeriodic(|raw| - 3);
      Reassociate(q, c, p);
      QuadThen(raw[0], raw[1], raw[2], c + p, raw[3..]);
      FirstThree(raw);
    } else if |raw| == 2 {
      LastTwoBytes(raw[0], raw[1], 0);
      assert raw == [raw[0], raw[1]];
    } else if |raw| == 1 {
      LastByte(raw[0], 0, 0);
      assert raw == [raw[0]];
    }
  }

  lemma ClassifySpell(x: seq<Sym>)
    requires forall i :: 0 <= i < |x| ==> !x[i].Bad?
    ensures ClassifyAll(SpellAll(x)) == x
  {
  }

  lemma DecodeStd(raw: seq<byte>)
    ensures StdDecode(Std(raw)) == Some(raw)
  {
    StdSymbols(raw);
    NoBreaks(Std(raw));
    ClassifySpell(Core(raw) + Padding(PadLen(|raw|)));
    DecodeCore(raw);
  }

  lemma {:induction false} NoBreaks(s: string)
    requires SymbolsOrPads(s)
    ensures WithoutBreaks(s) == s
  {
    if s != [] { NoBreaks(s[1..]); }
  }

  predicate AllSpace(s: string) { forall i :: 0 <= i < |s| ==> IsSpace(s[i]) }

  predicate NoSpace(s: string) { forall i :: 0 <= i < |s| ==> !IsSpace(s[i]) }

  lemma TrimNothing(s: string)
    requires NoSpace(s)
    ensures TrimSpace(s) == s
  {
  }

  /** Restoring the alphabet. */
  lemma UrlSafeUndone(s: string)
    requires forall i :: 0 <= i < |s| ==> s[i] != '-' && s[i] != '_'
    ensures ReplaceAll(ReplaceAll(UrlSafe(s), '-', '+'), '_', '/') == s
    ensures ReplaceAll(ReplaceAll(s, '-', '+'), '_', '/') == s
  {
  }

  /** Characters of the standard alphabet only, padding included. */
  predicate SymbolsOrPads(s: string) { forall i :: 0 <= i < |s| ==> Value(s[i]).Some? || s[i] == '=' }

  lemma StdSymbols(raw: seq<byte>)
    ensures SymbolsOrPads(Std(raw)) && SymbolsOrPads(Text(raw))
  {
  }

  lemma FlexibleIsStd(text: string)
    requires SymbolsOrPads(text)
    ensures DecodeFlexible(text) == StdDecode(Repad(text))
    ensures DecodeFlexible(UrlSafe(text)) == StdDecode(Repad(text))
  {
    TrimNothing(text);
    TrimNothing(UrlSafe(text));
    UrlSafeUndone(text);
  }

  /** The decoder takes all four spellings: either alphabet, padded or not. */
  lemma FlexibleDecodes(raw: seq<byte>, urlSafe: bool, padded: bool)
    ensures var text := if padded then Std(raw) else Strip(Std(raw));
            DecodeFlexible(if urlSafe then UrlSafe(text) else text) == Some(raw)
  {
    StripStd(raw);
    StdSymbols(raw);
    StdIsTextPadded(raw);
    FlexibleIsStd(if padded then Std(raw) else Text(raw));
    DecodeStd(raw);
  }

  // ---------- the link ----------

  lemma {:induction false} TrimRightKeeps(s: string, tail: string) returns (kept: string)
    requires s != [] && !IsSpace(s[|s| - 1])
    ensures TrimRight(s + tail) == s + kept && kept <= tail
    ensures kept == [] || !IsSpace(kept[|kept| - 1])
  {
    if tail != [] && IsSpace(tail[|tail| - 1]) {
      var n := |tail| - 1;
      kept := TrimRightKeeps(s, tail[..n]);
      assert (s + tail)[..|s| + n] == s + tail[..n];
    } else {
      kept := tail;
    }
  }

  lemma {:induction false} TrimLeftDrops(w: string, s: string)
    requires forall i :: 0 <= i < |w| ==> IsSpace(w[i])
    requires s != [] && !IsSpace(s[0])
    ensures TrimLeft(w + s) == s
  {
    if w == [] {
      assert w + s == s;
    } else {
      TrimLeftDrops(w[1..], s);
      assert (w + s)[1..] == w[1..] + s;
    }
  }

  /** The first occurrence of a pattern that starts with a character the text before it lacks. */
  lemma {:induction false} IndexAfter(before: string, pat: string, after: string)
    requires pat != [] && pat[0] !in before
    ensures Index(before + pat + after, pat) == |before|
  {
    var s := before + pat + after;
    if before != [] {
      assert s[0] == before[0];
      IndexAfter(before[1..], pat, after);
      assert s[1..] == before[1..] + pat + after;
    }
  }

  lemma {:induction false} IndexNone(s: string, c: char)
    requires c !in s
    ensures Index(s, [c]) == -1
  {
    if s != [] {
      assert s[0] != c;
      IndexNone(s[1..], c);
    }
  }

  /** Whatever follows a '&' is cut off. */
  lemma DataExtracted(b64: string, tail: string)
    requires '&' !in b64 && (tail == [] || tail[0] == '&')
    ensures DataOf(PREFIX + b64 + tail) == Some(b64)
  {
    var before := "vkturnproxy://import?";
    var link := PREFIX + b64 + tail;
    assert link == before + "data=" + (b64 + tail);
    IndexAfter(before, "data=", b64 + tail);
    assert link[|before| + 5..] == b64 + tail;
    if tail == [] {
      assert b64 + tail == b64;
      IndexNone(b64, '&');
    } else {
      assert b64 + tail == b64 + "&" + tail[1..];
      IndexAfter(b64, "&", tail[1..]);
    }
  }

  /** What an encoded payload is spelt with. */
  predicate UrlSymbol(c: char) { (Value(c).Some? && c != '+' && c != '/') || c == '-' || c == '_' }

  lemma UrlText(text: string)
    requires SymbolsOrPads(text) && '=' !in text
    ensures forall i :: 0 <= i < |text| ==> UrlSymbol(UrlSafe(text)[i])
  {
    forall i | 0 <= i < |text| ensures UrlSymbol(UrlSafe(text)[i]) {
      assert text[i] in text;
    }
  }

  lemma TextHasNoPads(raw: seq<byte>)
    ensures '=' !in Text(raw)
  {
    forall i | 0 <= i < |Text(raw)| ensures Text(raw)[i] != '=' {
      var x := Core(raw)[i];
      assert x.Digit? && Classify(Spell(x)) == x;
    }
  }

  lemma PayloadText(raw: seq<byte>)
    ensures var b64 := Strip(UrlSafe(Std(raw)));
            && |b64| == (4 * |raw| + 2) / 3
            && (forall i :: 0 <= i < |b64| ==> UrlSymbol(b64[i]))
            && DecodeFlexible(b64) == Some(raw)
  {
    StripStd(raw);
    StdSymbols(raw);
    TextHasNoPads(raw);
    UrlText(Text(raw));
    FlexibleDecodes(raw, true, false);
  }

  lemma PrefixText(b64: string)
    requires forall i :: 0 <= i < |b64| ==> UrlSymbol(b64[i])
    ensures NoSpace(PREFIX + b64) && '&' !in b64
  {
  }

  lemma Trimmed(spaces: string, link: string, tail: string) returns (kept: string)
    requires AllSpace(spaces)
    requires NoSpace(link) && link != []
    requires AllSpace(tail) || tail[0] == '&'
    ensures TrimSpace(spaces + link + tail) == link + kept && (kept == [] || kept[0] == '&')
  {
    assert spaces + link + tail == spaces + (link + tail);
    TrimLeftDrops(spaces, link + tail);
    kept := TrimRightKeeps(link, tail);
  }

  lemma LowerScheme(rest: string)
    ensures SCHEME <= Lower(PREFIX + rest)
  {
  }

  lemma TrimmedLinkCarries(b64: string, raw: seq<byte>, kept: string)
    requires '&' !in b64 && DecodeFlexible(b64) == Some(raw) && (kept == [] || kept[0] == '&')
    ensures InputOfTrimmed(PREFIX + b64 + kept) == Payload(raw)
  {
    assert PREFIX + b64 + kept == PREFIX + (b64 + kept);
    LowerScheme(b64 + kept);
    DataExtracted(b64, kept);
  }

  lemma LinkCarries(b64: string, raw: seq<byte>, spaces: string, tail: string)
    requires forall i :: 0 <= i < |b64| ==> UrlSymbol(b64[i])
    requires DecodeFlexible(b64) == Some(raw)
    requires AllSpace(spaces)
    requires AllSpace(tail) || tail[0] == '&'
    ensures InputOf(spaces + (PREFIX + b64) + tail) == Payload(raw)
  {
    PrefixText(b64);
    var kept := Trimmed(spaces, PREFIX + b64, tail);
    TrimmedLinkCarries(b64, raw, kept);
  }

  /** Every payload survives the link, with any white space around it and any parameters after it. */
  lemma LinkRoundTrip(raw: seq<byte>, spaces: string, tail: string)
    requires AllSpace(spaces)
    requires AllSpace(tail) || tail[0] == '&'
    ensures InputOf(spaces + BuildLink(raw) + tail) == Payload(raw)
  {
    PayloadText(raw);
    LinkCarries(Strip(UrlSafe(Std(raw))), raw, spaces, tail);
  }

  lemma BareText(bare: string)
    requires forall i :: 0 <= i < |bare| ==> UrlSymbol(bare[i])
    ensures NoSpace(bare) && '/' !in bare && '\\' !in bare
    ensures forall i :: 0 <= i < |bare| ==> Base64ish(bare[i])
    ensures !(SCHEME <= Lower(bare))
  {
    forall i | 0 <= i < |bare| ensures !IsSpace(bare[i]) && bare[i] != '/' && bare[i] != '\\' && Base64ish(bare[i]) {
      assert UrlSymbol(bare[i]);
    }
    assert SCHEME[11] == ':';
    assert |bare| > 11 ==> UrlSymbol(bare[11]) && Lower(bare)[11] != ':';
  }

  /** A payload given bare, without the URL around it, is decoded exactly when it has 12 bytes or more;
      a shorter one is taken for a file name. */
  lemma BarePayloadRoundTrip(raw: seq<byte>)
    ensures var bare := Strip(UrlSafe(Std(raw)));
            InputOf(bare) == if |raw| >= 12 then Payload(raw) else File(bare)
  {
    var bare := Strip(UrlSafe(Std(raw)));
    PayloadText(raw);
    BareText(bare);
    TrimNothing(bare);
  }

  // ---------- what else the importer is given ----------

  /** Table 1 of RFC 4648: capitals, small letters, digits, plus, slash. */
  lemma Alphabet(v: sextet)
    ensures v < 26 ==> Symbol(v) as int == 65 + v
    ensures 26 <= v < 52 ==> Symbol(v) as int == 97 + (v - 26)
    ensures 52 <= v < 62 ==> Symbol(v) as int == 48 + (v - 52)
    ensures Symbol(62) == '+' && Symbol(63) == '/'
    ensures UrlSafe("+") == "-" && UrlSafe("/") == "_"
  {
  }

  /** Four sextets spell the same twenty-four bits as three bytes, highest first. */
  lemma SameBits(a: byte, b: byte, c: byte)
    ensures 0x40000 * S0(a) + 0x1000 * S1(a, b) + 0x40 * S2(b, c) + S3(c) ==
            0x10000 * (a as int) + 0x100 * (b as int) + c
  {
  }

  /** The bits left over in the last symbol are zero (section 3.5 of RFC 4648). */
  lemma LeftoverBitsZero(a: byte, b: byte)
    ensures Core([a]) == [Digit(S0(a)), Digit(a % 4 * 16)]
    ensures Core([a, b]) == [Digit(S0(a)), Digit(S1(a, b)), Digit(b % 16 * 4)]
  {
  }

  /** White space is tab to carriage return, space, next line and no-break space. */
  lemma SpaceCodes(c: char)
    ensures IsSpace(c) <==> 9 <= c as int <= 13 || c as int == 32 || c as int == 133 || c as int == 160
  {
  }

  /** Lowering takes each capital to its small letter and leaves every other character. */
  lemma LowerLetters(s: string, i: nat)
    requires i < |s|
    ensures 65 <= s[i] as int <= 90 ==> Lower(s)[i] as int == 97 + (s[i] as int - 65)
    ensures !(65 <= s[i] as int <= 90) ==> Lower(s)[i] == s[i]
  {
  }

  /** Digits in fours; only the last four may end in one or two pads. */
  predicate WellPadded(s: seq<Sym>) {
    && |s| % 4 == 0
    && (forall i :: 0 <= i < |s| - 2 ==> s[i].Digit?)
    && (|s| > 0 ==> (s[|s| - 1].Digit? || s[|s| - 1] == Pad) &&
                    (s[|s| - 2].Digit? || (s[|s| - 2] == Pad && s[|s| - 1] == Pad)))
  }

  /** The decoder accepts exactly the well-padded texts, line breaks aside. */
  lemma {:induction false} DecodesIff(s: seq<Sym>)
    ensures DecodeQuads(s).Some? <==> WellPadded(s)
  {
    if |s| > 4 {
      DecodesIff(s[4..]);
      DecodesTail(s);
    }
  }

  lemma DecodesTail(s: seq<Sym>)
    requires |s| > 4
    ensures WellPadded(s) <==>
            s[0].Digit? && s[1].Digit? && s[2].Digit? && s[3].Digit? && WellPadded(s[4..])
  {
    var t := s[4..];
    assert forall i :: 0 <= i < |t| ==> t[i] == s[i + 4];
    if s[0].Digit? && s[1].Digit? && s[2].Digit? && s[3].Digit? && WellPadded(t) {
      forall i | 0 <= i < |s| - 2 ensures s[i].Digit? {
        assert i >= 4 ==> s[i] == t[i - 4];
      }
    }
  }

  /** Neither a letter, nor a digit, nor one of + / - _ = */
  predicate Foreign(c: char) {
    var n := c as int;
    && !(65 <= n <= 90) && !(97 <= n <= 122) && !(48 <= n <= 57)
    && n != 43 && n != 47 && n != 45 && n != 95 && n != 61
  }

  /** A text with a slash or a backslash that is not a link is a path, and so
      is a short one; a link without data is an error. */
  lemma OtherInputs(trimmed: string)
    ensures !(SCHEME <= Lower(trimmed)) && ('/' in trimmed || '\\' in trimmed || |trimmed| < 16) ==>
            InputOfTrimmed(trimmed) == File(trimmed)
    ensures SCHEME <= Lower(trimmed) && Index(trimmed, "data=") < 0 ==> InputOfTrimmed(trimmed) == NoData
  {
  }

  /** And so is one with a character that base64 does not use, wherever it stands. */
  lemma ForeignIsFile(trimmed: string, i: nat)
    requires i < |trimmed| && Foreign(trimmed[i]) && !(SCHEME <= Lower(trimmed))
    ensures InputOfTrimmed(trimmed) == File(trimmed)
  {
    ForeignNotBase64(trimmed[i]);
    assert !LooksBase64(trimmed);
  }

  lemma ForeignNotBase64(c: char)
    requires Foreign(c)
    ensures !Base64ish(c)
  {
  }

  lemma {:induction false} IndexSkips(before: string, s: string, pat: string)
    requires pat != [] && pat[0] !in before
    ensures Index(before + s, pat) == if Index(s, pat) < 0 then -1 else |before| + Index(s, pat)
  {
    if before == [] {
      assert before + s == s;
    } else {
      assert (before + s)[0] == before[0] && before[0] in before;
      IndexSkips(before[1..], s, pat);
      assert (before + s)[1..] == before[1..] + s;
    }
  }

  lemma LowerConcat(a: string, b: string)
    ensures Lower(a + b) == Lower(a) + Lower(b)
  {
  }

  lemma NoDataInScheme(scheme: string)
    requires Lower(scheme) == SCHEME
    ensures 'd' !in scheme
  {
    forall i | 0 <= i < |scheme| ensures scheme[i] != 'd' {
      assert Lower(scheme)[i] == SCHEME[i] && SCHEME[i] in SCHEME && 'd' !in SCHEME;
    }
  }

  /** The case of the scheme does not matter. */
  lemma SchemeIgnoresCase(scheme: string, rest: string)
    requires Lower(scheme) == SCHEME
    ensures InputOfTrimmed(scheme + rest) == InputOfTrimmed(SCHEME + rest)
  {
    LowerConcat(scheme, rest);
    LowerConcat(SCHEME, rest);
    assert Lower(SCHEME) == SCHEME;
    NoDataInScheme(scheme);
    NoDataInScheme(SCHEME);
    SameData(scheme, SCHEME, rest);
  }

  lemma SameData(a: string, b: string, rest: string)
    requires 'd' !in a && 'd' !in b && |a| == |b|
    ensures DataOf(a + rest) == DataOf(b + rest)
  {
    IndexSkips(a, rest, "data=");
    IndexSkips(b, rest, "data=");
    var i := Index(rest, "data=");
    if i >= 0 {
      AfterPrefix(a, rest, i + 5);
      AfterPrefix(b, rest, i + 5);
    }
  }

  lemma AfterPrefix(a: string, rest: string, n: nat)
    requires n <= |rest|
    ensures (a + rest)[|a| + n..] == rest[n..]
  {
  }
}
