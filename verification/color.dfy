/**
  The `--bg` background colour: every leading '#' is stripped, a payload of
  six hex digits is opaque RGB, one of eight digits is RGBA, and a payload of
  any other length falls back to transparent black without complaint.
 */
module Color {
  import opened Hex
  import opened Results

  /** One RGBA pixel or colour, channels as the integers Python computes. */
  datatype Rgba = Rgba(r: int, g: int, b: int, a: int)

  predicate IsByte(n: int) {
    0 <= n < 256
  }

  predicate ValidRgba(c: Rgba) {
    IsByte(c.r) && IsByte(c.g) && IsByte(c.b) && IsByte(c.a)
  }

  /** The fallback colour, and the padding colour when `--bg` is not given. */
  const TransparentBlack := Rgba(0, 0, 0, 0)

  /** A six- or eight-character payload holding a character that is not a hex digit;
      the program stops there with an uncaught error. */
  datatype BgError = NotHex(payload: string)

  /** Python's `s.lstrip("#")`: the longest suffix of `s` that does not start with '#'. */
  function StripHashes(s: string): (t: string)
    ensures |t| <= |s| && t == s[|s| - |t|..]
    ensures forall i :: 0 <= i < |s| - |t| ==> s[i] == '#'
    ensures t == [] || t[0] != '#'
  {
    if |s| > 0 && s[0] == '#' then StripHashes(s[1..]) else s
  }

  /** The channel stored in hex places 2k and 2k+1 of the payload. */
  function Channel(p: string, k: nat): (v: nat)
    requires 2 * k + 2 <= |p| && AllHex(p)
    ensures IsByte(v)
  {
    var pair := p[2 * k..2 * k + 2];
    assert AllHex(pair);
    PairValue(pair);
    HexValue(pair)
  }

  /** The colour a payload (what is left after lstrip) denotes: six hex digits are
      opaque RGB, eight are RGBA, any other length is transparent black. */
  function DecodePayload(p: string): (r: Result<Rgba, BgError>)
    ensures |p| != 6 && |p| != 8 ==> r == Ok(TransparentBlack)
    ensures r.Err? <==> (|p| == 6 || |p| == 8) && !AllHex(p)
    ensures r.Err? ==> r.error == NotHex(p)
    ensures r.Ok? ==> ValidRgba(r.value)
    ensures r.Ok? && |p| == 6 ==> r.value.a == 255
  {
    if |p| == 6 || |p| == 8 then
      if AllHex(p) then
        Ok(Rgba(Channel(p, 0), Channel(p, 1), Channel(p, 2), if |p| == 8 then Channel(p, 3) else 255))
      else
        Err(NotHex(p))
    else
      Ok(TransparentBlack)
  }

  /** The background colour decoded from the `--bg` argument. */
  function ParseBg(s: string): (r: Result<Rgba, BgError>)
    ensures var p := StripHashes(s);
      && (|p| != 6 && |p| != 8 ==> r == Ok(TransparentBlack))
      && (r.Err? <==> (|p| == 6 || |p| == 8) && !AllHex(p))
      && (r.Ok? && |p| == 6 ==> r.value.a == 255)
    ensures r.Ok? ==> ValidRgba(r.value)
  {
    DecodePayload(StripHashes(s))
  }

  /** A six-digit payload is read pairwise as red, green and blue, fully opaque. */
  lemma DecodeSixDigits(p: string)
    requires |p| == 6 && AllHex(p)
    ensures DecodePayload(p) == Ok(Rgba(HexValue(p[0..2]), HexValue(p[2..4]), HexValue(p[4..6]), 255))
  {
  }

  /** An eight-digit payload is read pairwise as red, green, blue and alpha. */
  lemma DecodeEightDigits(p: string)
    requires |p| == 8 && AllHex(p)
    ensures DecodePayload(p) == Ok(Rgba(HexValue(p[0..2]), HexValue(p[2..4]), HexValue(p[4..6]), HexValue(p[6..8])))
  {
  }

  /** `"#rrggbbaa"` in lower-case hex: the inverse of ParseBg on valid colours. */
  function FormatBg(c: Rgba): (s: string)
    requires ValidRgba(c)
    ensures |s| == 9 && s[0] == '#' && AllHex(s[1..])
  {
    "#" + EncodeByte(c.r) + EncodeByte(c.g) + EncodeByte(c.b) + EncodeByte(c.a)
  }

  /** `"#rrggbb"` in lower-case hex, for an opaque colour. */
  function FormatOpaque(c: Rgba): (s: string)
    requires ValidRgba(c) && c.a == 255
    ensures |s| == 7 && s[0] == '#' && AllHex(s[1..])
  {
    "#" + EncodeByte(c.r) + EncodeByte(c.g) + EncodeByte(c.b)
  }

  /** Prefixing a '#' never changes what lstrip leaves. */
  lemma {:induction false} StripHashesPrefix(s: string)
    ensures StripHashes("#" + s) == StripHashes(s)
  {
    assert ("#" + s)[1..] == s;
  }

  /** lstrip is pinned down by where the run of leading '#' ends: whatever strips
      exactly the first `k` characters, all '#', with no '#' at position `k`. */
  lemma {:induction false} StripHashesUnique(s: string, k: nat)
    requires k <= |s|
    requires forall i :: 0 <= i < k ==> s[i] == '#'
    requires k == |s| || s[k] != '#'
    ensures StripHashes(s) == s[k..]
  {
    if k > 0 {
      assert s[0] == '#';
      StripHashesUnique(s[1..], k - 1);
      assert s[1..][k - 1..] == s[k..];
    }
  }

  /** A string that already starts with a hex digit loses nothing to lstrip. */
  lemma StripHashesHex(s: string)
    requires |s| > 0 && IsHexDigit(s[0])
    ensures StripHashes(s) == s
  {
  }

  /** Every valid colour survives formatting and parsing unchanged. */
  lemma {:induction false} ParseFormatRoundTrip(c: Rgba)
    requires ValidRgba(c)
    ensures ParseBg(FormatBg(c)) == Ok(c)
  {
    var r, g, b, a := EncodeByte(c.r), EncodeByte(c.g), EncodeByte(c.b), EncodeByte(c.a);
    var p := r + g + b + a;
    assert FormatBg(c) == "#" + p;
    StripHashesPrefix(p);
    StripHashesHex(p);
    assert p[0..2] == r && p[2..4] == g && p[4..6] == b && p[6..8] == a;
    DecodeEightDigits(p);
  }

  /** Every opaque colour survives six-digit formatting and parsing unchanged. */
  lemma {:induction false} ParseFormatOpaqueRoundTrip(c: Rgba)
    requires ValidRgba(c) && c.a == 255
    ensures ParseBg(FormatOpaque(c)) == Ok(c)
  {
    var r, g, b := EncodeByte(c.r), EncodeByte(c.g), EncodeByte(c.b);
    var p := r + g + b;
    assert FormatOpaque(c) == "#" + p;
    StripHashesPrefix(p);
    StripHashesHex(p);
    assert p[0..2] == r && p[2..4] == g && p[4..6] == b;
    DecodeSixDigits(p);
  }

  /** The other direction, on a payload: eight hex digits decode to a colour that
      is written back as the same digits in lower case. */
  lemma {:induction false} FormatDecodeRoundTrip(p: string)
    requires |p| == 8 && AllHex(p)
    ensures DecodePayload(p).Ok?
    ensures FormatBg(DecodePayload(p).value) == "#" + LowerHex(p)
  {
    var p0, p1, p2, p3 := p[0..2], p[2..4], p[4..6], p[6..8];
    assert p == p0 + p1 + p2 + p3;
    assert LowerHex(p) == LowerHex(p0) + LowerHex(p1) + LowerHex(p2) + LowerHex(p3) by {
      LowerHexConcat(p0 + p1 + p2, p3);
      LowerHexConcat(p0 + p1, p2);
      LowerHexConcat(p0, p1);
    }
    assert AllHex(p0) && AllHex(p1) && AllHex(p2) && AllHex(p3);
    DecodeEightDigits(p);
    EncodeDecodePair(p0);
    EncodeDecodePair(p1);
    EncodeDecodePair(p2);
    EncodeDecodePair(p3);
  }

  /** The same for six digits: they always decode, to an opaque colour that is
      written back as the same digits in lower case. */
  lemma {:induction false} FormatDecodeOpaqueRoundTrip(p: string)
    requires |p| == 6 && AllHex(p)
    ensures DecodePayload(p).Ok?
    ensures FormatOpaque(DecodePayload(p).value) == "#" + LowerHex(p)
  {
    var p0, p1, p2 := p[0..2], p[2..4], p[4..6];
    assert p == p0 + p1 + p2;
    assert LowerHex(p) == LowerHex(p0) + LowerHex(p1) + LowerHex(p2) by {
      LowerHexConcat(p0 + p1, p2);
      LowerHexConcat(p0, p1);
    }
    assert AllHex(p0) && AllHex(p1) && AllHex(p2);
    DecodeSixDigits(p);
    EncodeDecodePair(p0);
    EncodeDecodePair(p1);
    EncodeDecodePair(p2);
  }

  /** The other direction, on the argument: an eight-digit payload that parses is
      written back as itself in lower case. */
  lemma FormatParseRoundTrip(s: string)
    requires |StripHashes(s)| == 8 && ParseBg(s).Ok?
    ensures FormatBg(ParseBg(s).value) == "#" + LowerHex(StripHashes(s))
  {
    FormatDecodeRoundTrip(StripHashes(s));
  }

  /** `n` copies of '#'. */
  function Hashes(n: nat): (h: string)
    ensures |h| == n
  {
    if n == 0 then "" else "#" + Hashes(n - 1)
  }

  /** Any number of leading '#' characters are ignored. */
  lemma {:induction false} LeadingHashesIgnored(n: nat, s: string)
    ensures ParseBg(Hashes(n) + s) == ParseBg(s)
  {
    if n > 0 {
      var rest := Hashes(n - 1) + s;
      assert Hashes(n) + s == "#" + rest;
      StripHashesPrefix(rest);
      calc {
        ParseBg(Hashes(n) + s);
        DecodePayload(StripHashes("#" + rest));
        DecodePayload(StripHashes(rest));
        ParseBg(rest);
        { LeadingHashesIgnored(n - 1, s); }
        ParseBg(s);
      }
    } else {
      assert Hashes(n) + s == s;
    }
  }

  /** The argument's default, `#00000000`, decodes to transparent black. */
  lemma DefaultBackground()
    ensures ParseBg("#00000000") == Ok(TransparentBlack)
  {
    var p := StripHashes("#00000000");
    StripHashesPrefix("00000000");
    StripHashesHex("00000000");
    assert p == "00000000";
    PairValue(p[0..2]);
    PairValue(p[2..4]);
    PairValue(p[4..6]);
    PairValue(p[6..8]);
  }
}
