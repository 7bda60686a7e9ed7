/**
 * The browser's generic query-string builder (src/searchParams.ts) and the
 * `encodeURIComponent` it relies on: every character outside the unreserved
 * set of section 2.3 of RFC 3986 (letters, digits, `-`, `_`, `.`, `~`)
 * and the marks `!`, `*`, `'`, `(`, `)` is written as the `%HH` escapes of
 * its UTF-8 bytes (section 2.1 of RFC 3986).
 */
module QueryString {
  import opened Wrappers
  import opened JsString
  import opened JsArray

  /** The characters `encodeURIComponent` leaves as they are. */
  predicate Unreserved(c: char)
  {
    ('A' <= c <= 'Z') || ('a' <= c <= 'z') || ('0' <= c <= '9')
    || c == '-' || c == '_' || c == '.' || c == '!' || c == '~' || c == '*' || c == '\'' || c == '(' || c == ')'
  }

  /** Every character of `s` is one `encodeURIComponent` leaves alone. */
  predicate AllUnreserved(s: string)
  {
    forall i :: 0 <= i < |s| ==> Unreserved(s[i])
  }

  /** A byte is a number below 256. */
  predicate IsByte(b: int)
  {
    0 <= b < 256
  }

  /** The UTF-8 encoding (section 3 of RFC 3629) of one Unicode scalar value. */
  function Utf8(c: char): (bytes: seq<int>)
    ensures 1 <= |bytes| <= 4
    ensures forall i :: 0 <= i < |bytes| ==> IsByte(bytes[i])
    ensures (c as int) < 0x80 <==> |bytes| == 1
    ensures (c as int) < 0x80 ==> bytes == [c as int]
  {
    var cp := c as int;
    if cp < 0x80 then [cp]
    else if cp < 0x800 then [0xC0 + cp / 0x40, 0x80 + cp % 0x40]
    else if cp < 0x1_0000 then [0xE0 + cp / 0x1000, 0x80 + (cp / 0x40) % 0x40, 0x80 + cp % 0x40]
    else [0xF0 + cp / 0x4_0000, 0x80 + (cp / 0x1000) % 0x40, 0x80 + (cp / 0x40) % 0x40, 0x80 + cp % 0x40]
  }

  /** The UTF-8 encoding of a whole string. */
  function Utf8String(s: string): (bytes: seq<int>)
    ensures forall i :: 0 <= i < |bytes| ==> IsByte(bytes[i])
  {
    if s == [] then [] else Utf8(s[0]) + Utf8String(s[1..])
  }

  /** An upper-case hexadecimal digit. */
  function HexDigit(d: int): (c: char)
    requires 0 <= d < 16
    ensures Unreserved(c)
  {
    "0123456789ABCDEF"[d]
  }

  /** The value of a hexadecimal digit, either case, or -1. */
  function HexValue(c: char): (d: int)
    ensures -1 <= d < 16
  {
    if '0' <= c <= '9' then c as int - '0' as int
    else if 'A' <= c <= 'F' then c as int - 'A' as int + 10
    else if 'a' <= c <= 'f' then c as int - 'a' as int + 10
    else -1
  }

  lemma HexValueOfDigit(d: int)
    requires 0 <= d < 16
    ensures HexValue(HexDigit(d)) == d
  {
  }

  /** `%HH` for one byte. */
  function Escape(b: int): (e: string)
    requires IsByte(b)
    ensures |e| == 3 && e[0] == '%' && Unreserved(e[1]) && Unreserved(e[2])
  {
    ['%', HexDigit(b / 16), HexDigit(b % 16)]
  }

  /** The escapes of a run of bytes. */
  function EscapeBytes(bytes: seq<int>): (e: string)
    requires forall i :: 0 <= i < |bytes| ==> IsByte(bytes[i])
    ensures forall i :: 0 <= i < |e| ==> Unreserved(e[i]) || e[i] == '%'
  {
    if bytes == [] then [] else Escape(bytes[0]) + EscapeBytes(bytes[1..])
  }

  /** One character as `encodeURIComponent` writes it. */
  function EncodeChar(c: char): (e: string)
    ensures forall i :: 0 <= i < |e| ==> Unreserved(e[i]) || e[i] == '%'
  {
    if Unreserved(c) then [c] else EscapeBytes(Utf8(c))
  }

  /**
   * `encodeURIComponent(s)`: the output holds only unreserved characters and
   * `%`, so never the `&`, `=` or `?` that delimit a query string.
   */
  function EncodeURIComponent(s: string): (e: string)
    ensures forall i :: 0 <= i < |e| ==> Unreserved(e[i]) || e[i] == '%'
    ensures '&' !in e && '=' !in e && '?' !in e
    ensures AllUnreserved(s) ==> e == s
  {
    if s == [] then []
    else
      var rest := EncodeURIComponent(s[1..]);
      var first := EncodeChar(s[0]);
      EncodedConcat(first, rest);
      assert AllUnreserved(s) ==> first + rest == s by {
        if AllUnreserved(s) {
          assert AllUnreserved(s[1..]);
          HeadTail(s);
        }
      }
      first + rest
  }

  /** Two encoded pieces make an encoded whole, free of the query delimiters. */
  lemma EncodedConcat(a: string, b: string)
    requires forall i :: 0 <= i < |a| ==> Unreserved(a[i]) || a[i] == '%'
    requires forall i :: 0 <= i < |b| ==> Unreserved(b[i]) || b[i] == '%'
    ensures forall i :: 0 <= i < |a + b| ==> Unreserved((a + b)[i]) || (a + b)[i] == '%'
    ensures '&' !in a + b && '=' !in a + b && '?' !in a + b
  {
  }

  /**
   * Percent-decoding to bytes: `%HH` gives byte HH, an ASCII character its
   * own code; anything else (a stray `%`, a non-ASCII character) is malformed.
   */
  function PercentDecode(s: string): (bytes: Option<seq<int>>)
    decreases |s|
  {
    if s == [] then Some([])
    else if s[0] == '%' then
      if |s| >= 3 && HexValue(s[1]) >= 0 && HexValue(s[2]) >= 0 then
        Prepend([HexValue(s[1]) * 16 + HexValue(s[2])], PercentDecode(s[3..]))
      else None
    else if (s[0] as int) < 0x80 then Prepend([s[0] as int], PercentDecode(s[1..]))
    else None
  }

  function Prepend(bytes: seq<int>, rest: Option<seq<int>>): Option<seq<int>>
  {
    match rest
    case Some(r) => Some(bytes + r)
    case None => None
  }

  lemma DecodeEscape(b: int, rest: string)
    requires IsByte(b)
    ensures PercentDecode(Escape(b) + rest) == Prepend([b], PercentDecode(rest))
  {
    var e := Escape(b) + rest;
    HexValueOfDigit(b / 16);
    HexValueOfDigit(b % 16);
    assert e[1] == HexDigit(b / 16) && e[2] == HexDigit(b % 16);
    assert e[3..] == rest;
  }

  lemma {:induction false} DecodeEscapes(bytes: seq<int>, rest: string)
    requires forall i :: 0 <= i < |bytes| ==> IsByte(bytes[i])
    ensures PercentDecode(EscapeBytes(bytes) + rest) == Prepend(bytes, PercentDecode(rest))
    decreases |bytes|
  {
    if bytes != [] {
      DecodeEscapes(bytes[1..], rest);
      DecodeEscapesStep(bytes, rest);
    } else {
      DecodeNoEscapes(rest);
    }
  }

  lemma DecodeEscapesStep(bytes: seq<int>, rest: string)
    requires bytes != [] && forall i :: 0 <= i < |bytes| ==> IsByte(bytes[i])
    requires PercentDecode(EscapeBytes(bytes[1..]) + rest) == Prepend(bytes[1..], PercentDecode(rest))
    ensures PercentDecode(EscapeBytes(bytes) + rest) == Prepend(bytes, PercentDecode(rest))
  {
    var b := bytes[0];
    var tail := EscapeBytes(bytes[1..]) + rest;
    Regroup(Escape(b), EscapeBytes(bytes[1..]), rest);
    DecodeEscape(b, tail);
    PrependPrepend([b], bytes[1..], PercentDecode(rest));
    HeadTail(bytes);
  }

  lemma DecodeNoEscapes(rest: string)
    ensures PercentDecode(EscapeBytes([]) + rest) == Prepend([], PercentDecode(rest))
  {
    assert EscapeBytes([]) + rest == rest;
    if PercentDecode(rest).Some? {
      assert [] + PercentDecode(rest).value == PercentDecode(rest).value;
    }
  }

  lemma PrependPrepend(a: seq<int>, b: seq<int>, rest: Option<seq<int>>)
    ensures Prepend(a, Prepend(b, rest)) == Prepend(a + b, rest)
  {
    if rest.Some? {
      assert a + (b + rest.value) == (a + b) + rest.value;
    }
  }

  lemma DecodeChar(c: char, rest: string)
    ensures PercentDecode(EncodeChar(c) + rest) == Prepend(Utf8(c), PercentDecode(rest))
  {
    if Unreserved(c) {
      assert (EncodeChar(c) + rest)[1..] == rest;
    } else {
      DecodeEscapes(Utf8(c), rest);
    }
  }

  /** Percent-decoding an encoded string gives back exactly the UTF-8 bytes of the original. */
  lemma {:induction false} DecodeEncode(s: string)
    ensures PercentDecode(EncodeURIComponent(s)) == Some(Utf8String(s))
    decreases |s|
  {
    if s != [] {
      DecodeChar(s[0], EncodeURIComponent(s[1..]));
      DecodeEncode(s[1..]);
    }
  }

  /** The number of bytes a UTF-8 sequence with this lead byte takes. */
  function Utf8Width(lead: int): (w: nat)
    ensures 1 <= w <= 4
  {
    if lead < 0x80 then 1 else if lead < 0xE0 then 2 else if lead < 0xF0 then 3 else 4
  }

  /** The code point the payload bits of one UTF-8 sequence spell. */
  function CodePointOf(bytes: seq<int>): int
    requires 1 <= |bytes| <= 4
  {
    if |bytes| == 1 then bytes[0]
    else if |bytes| == 2 then (bytes[0] - 0xC0) * 0x40 + (bytes[1] - 0x80)
    else if |bytes| == 3 then (bytes[0] - 0xE0) * 0x1000 + (bytes[1] - 0x80) * 0x40 + (bytes[2] - 0x80)
    else (bytes[0] - 0xF0) * 0x4_0000 + (bytes[1] - 0x80) * 0x1000 + (bytes[2] - 0x80) * 0x40 + (bytes[3] - 0x80)
  }

  /** A Unicode scalar value: a code point that is not a surrogate. */
  predicate IsScalar(cp: int)
  {
    0 <= cp < 0xD800 || 0xE000 <= cp < 0x11_0000
  }

  /**
   * UTF-8 decoding of a byte sequence: each lead byte gives the length of
   * its sequence. A truncated sequence or one that spells no scalar value
   * is malformed.
   */
  function Utf8Decode(bytes: seq<int>): (s: Option<string>)
    decreases |bytes|
  {
    if bytes == [] then Some([])
    else
      var w := Utf8Width(bytes[0]);
      if w > |bytes| || !IsScalar(CodePointOf(bytes[..w])) then None
      else
        match Utf8Decode(bytes[w..])
        case Some(rest) => Some([CodePointOf(bytes[..w]) as char] + rest)
        case None => None
  }

  /** The lead byte of a character's encoding gives its length, and the payload bits give the character back. */
  lemma Utf8OfCharDecodes(c: char)
    ensures Utf8Width(Utf8(c)[0]) == |Utf8(c)|
    ensures CodePointOf(Utf8(c)) == c as int
  {
    var cp := c as int;
    if 0x80 <= cp < 0x800 {
      TwoByteDecodes(cp);
    } else if 0x800 <= cp < 0x1_0000 {
      ThreeByteDecodes(cp);
    } else if 0x1_0000 <= cp {
      FourByteDecodes(cp);
    }
  }

  lemma TwoByteDecodes(cp: int)
    requires 0x80 <= cp < 0x800
    ensures 0xC0 <= 0xC0 + cp / 0x40 < 0xE0
    ensures (0xC0 + cp / 0x40 - 0xC0) * 0x40 + (0x80 + cp % 0x40 - 0x80) == cp
  {
  }

  lemma ThreeByteDecodes(cp: int)
    requires 0x800 <= cp < 0x1_0000
    ensures 0xE0 <= 0xE0 + cp / 0x1000 < 0xF0
    ensures (cp / 0x1000) * 0x1000 + ((cp / 0x40) % 0x40) * 0x40 + cp % 0x40 == cp
  {
    var hi := cp / 0x40;
    assert cp == hi * 0x40 + cp % 0x40;
    assert hi == (hi / 0x40) * 0x40 + hi % 0x40;
    assert hi / 0x40 == cp / 0x1000;
  }

  lemma FourByteDecodes(cp: int)
    requires 0x1_0000 <= cp < 0x11_0000
    ensures 0xF0 <= 0xF0 + cp / 0x4_0000
    ensures (cp / 0x4_0000) * 0x4_0000 + ((cp / 0x1000) % 0x40) * 0x1000 + ((cp / 0x40) % 0x40) * 0x40 + cp % 0x40 == cp
  {
    var hi := cp / 0x40;
    var top := hi / 0x40;
    assert cp == hi * 0x40 + cp % 0x40;
    assert hi == top * 0x40 + hi % 0x40;
    assert top == (top / 0x40) * 0x40 + top % 0x40;
    assert top == cp / 0x1000 && top / 0x40 == cp / 0x4_0000;
  }

  /** UTF-8 decoding inverts UTF-8 encoding, so no two strings share an encoding. */
  lemma {:induction false} Utf8DecodeEncode(s: string)
    ensures Utf8Decode(Utf8String(s)) == Some(s)
    decreases |s|
  {
    if s != [] {
      var bytes := Utf8String(s);
      var first := Utf8(s[0]);
      Utf8OfCharDecodes(s[0]);
      assert bytes[..|first|] == first && bytes[|first|..] == Utf8String(s[1..]);
      Utf8DecodeEncode(s[1..]);
      assert [s[0]] + s[1..] == s;
    }
  }

  /** `decodeURIComponent`: percent-decoding, then UTF-8 decoding. */
  function DecodeURIComponent(e: string): Option<string>
  {
    match PercentDecode(e)
    case Some(bytes) => Utf8Decode(bytes)
    case None => None
  }

  /** `decodeURIComponent(encodeURIComponent(s)) === s` for every string. */
  lemma DecodeURIComponentEncode(s: string)
    ensures DecodeURIComponent(EncodeURIComponent(s)) == Some(s)
  {
    DecodeEncode(s);
    Utf8DecodeEncode(s);
  }

  /** The entries that survive the filter: those whose value is neither "" nor `undefined`. */
  function Kept(entries: seq<(string, Option<string>)>): (kept: seq<(string, string)>)
    ensures |kept| <= |entries|
  {
    if entries == [] then []
    else
      var e := entries[0];
      (if e.1.Some? && e.1.value != "" then [(e.0, e.1.value)] else []) + Kept(entries[1..])
  }

  /** The filter keeps entries in their input order: it distributes over concatenation. */
  lemma {:induction false} KeptAppend(a: seq<(string, Option<string>)>, b: seq<(string, Option<string>)>)
    ensures Kept(a + b) == Kept(a) + Kept(b)
    decreases |a|
  {
    if a == [] {
      assert a + b == b;
    } else {
      assert (a + b)[0] == a[0];
      assert (a + b)[1..] == a[1..] + b;
      KeptAppend(a[1..], b);
    }
  }

  /** An entry with a proper value is kept as it is; one with "" or `undefined` is dropped. */
  lemma KeptOne(key: string, value: Option<string>)
    ensures Kept([(key, value)]) == if value.Some? && value.value != "" then [(key, value.value)] else []
  {
    assert [(key, value)][1..] == [];
  }

  /** The result is "" exactly when no entry survives the filter. */
  lemma {:induction false} KeptEmpty(entries: seq<(string, Option<string>)>)
    ensures Kept(entries) == [] <==> forall i :: 0 <= i < |entries| ==> entries[i].1 == None || entries[i].1 == Some("")
    decreases |entries|
  {
    if entries != [] {
      KeptEmpty(entries[1..]);
      assert forall i :: 1 <= i < |entries| ==> entries[i] == entries[1..][i - 1];
    }
  }

  /** `${encodeURIComponent(key)}=${encodeURIComponent(value)}`. */
  function Pair(entry: (string, string)): (p: string)
    ensures '&' !in p
  {
    EncodeURIComponent(entry.0) + "=" + EncodeURIComponent(entry.1)
  }

  function Pairs(kept: seq<(string, string)>): (pairs: seq<string>)
    ensures |pairs| == |kept|
    ensures forall i :: 0 <= i < |kept| ==> pairs[i] == Pair(kept[i])
  {
    if kept == [] then [] else [Pair(kept[0])] + Pairs(kept[1..])
  }

  /**
   * `searchParams(params)`: "" when no entry survives the filter, otherwise
   * "?" followed by the surviving `key=value` pairs, in entry order, each
   * split back off by the `&` between them.
   */
  function SearchParams(entries: seq<(string, Option<string>)>): (query: string)
    ensures query == "" <==> forall i :: 0 <= i < |entries| ==> entries[i].1 == None || entries[i].1 == Some("")
    ensures query != "" ==> query[0] == '?' && Split(query[1..], '&') == Pairs(Kept(entries))
  {
    var pairs := Pairs(Kept(entries));
    KeptEmpty(entries);
    if |pairs| > 0 then
      SplitJoin(pairs, '&');
      "?" + Join(pairs, "&")
    else ""
  }

  /** The query string is "" or "?" followed by the joined pairs. */
  lemma SearchParamsOfPairs(entries: seq<(string, Option<string>)>)
    ensures var pairs := Pairs(Kept(entries));
      SearchParams(entries) == if pairs == [] then "" else "?" + Join(pairs, "&")
  {
  }

  /**
   * Each pair splits at its one `=` into the encoded key and value, and
   * those decode to the UTF-8 bytes of the original key and value.
   */
  lemma PairParses(entry: (string, string))
    ensures Split(Pair(entry), '=') == [EncodeURIComponent(entry.0), EncodeURIComponent(entry.1)]
    ensures PercentDecode(EncodeURIComponent(entry.0)) == Some(Utf8String(entry.0))
    ensures PercentDecode(EncodeURIComponent(entry.1)) == Some(Utf8String(entry.1))
  {
    var parts := [EncodeURIComponent(entry.0), EncodeURIComponent(entry.1)];
    assert Join(parts, "=") == Pair(entry) by {
      assert Join(parts[1..], "=") == EncodeURIComponent(entry.1);
    }
    SplitJoin(parts, '=');
    DecodeEncode(entry.0);
    DecodeEncode(entry.1);
  }

  /** U+1F642 takes four UTF-8 bytes, F0 9F 99 82. */
  lemma SlightlySmilingFaceBytes()
    ensures Utf8('\U{1F642}') == [0xF0, 0x9F, 0x99, 0x82]
  {
    assert 0x1F642 / 0x40 == 0x7D9 && 0x1F642 % 0x40 == 0x02;
    assert 0x1F642 / 0x1000 == 0x1F && 0x1F642 / 0x4_0000 == 0;
    assert 0x7D9 % 0x40 == 0x19;
  }
}
