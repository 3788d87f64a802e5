/**
 * The string operations `getSchema` uses on a reference: `String.prototype.split` with a
 * one-character separator, and the unescaping of one JSON Pointer segment taken from a URI
 * fragment (percent-decoding as `decodeURIComponent` does, section 6 of RFC 6901, then the
 * `~1` and `~0` escapes of section 4 of RFC 6901).
 */
module Pointer {
  import opened Wrappers

  /** `s.split(sep)`: the maximal runs between separators, in order; never empty. */
  function Split(s: string, sep: char): (parts: seq<string>)
    ensures |parts| >= 1
  {
    if s == [] then [""]
    else
      var rest := Split(s[1..], sep);
      if s[0] == sep then [""] + rest else [[s[0]] + rest[0]] + rest[1..]
  }

  /**
   * What `Split` promises: no part contains the separator, there are at least two parts
   * exactly when the separator occurs, and joining the parts back gives the string.
   */
  lemma SplitJoin(s: string, sep: char)
    ensures forall i | 0 <= i < |Split(s, sep)| :: sep !in Split(s, sep)[i]
    ensures sep in s <==> |Split(s, sep)| >= 2
    ensures Join(Split(s, sep), sep) == s
  {
    SplitPartsAvoid(s, sep);
    SplitCount(s, sep);
    SplitJoinBack(s, sep);
  }

  lemma {:induction false} SplitPartsAvoid(s: string, sep: char)
    ensures forall i | 0 <= i < |Split(s, sep)| :: sep !in Split(s, sep)[i]
  {
    if s != [] {
      SplitPartsAvoid(s[1..], sep);
      var rest, parts := Split(s[1..], sep), Split(s, sep);
      if s[0] == sep {
        assert forall i | 1 <= i < |parts| :: parts[i] == rest[i - 1];
      } else {
        assert forall i | 1 <= i < |parts| :: parts[i] == rest[i];
      }
    }
  }

  lemma {:induction false} SplitCount(s: string, sep: char)
    ensures sep in s <==> |Split(s, sep)| >= 2
  {
    if s != [] {
      SplitCount(s[1..], sep);
      assert s == [s[0]] + s[1..];
    }
  }

  lemma {:induction false} SplitJoinBack(s: string, sep: char)
    ensures Join(Split(s, sep), sep) == s
  {
    if s != [] {
      SplitJoinBack(s[1..], sep);
      var rest := Split(s[1..], sep);
      if s[0] == sep {
        JoinAfterEmpty(rest, sep);
      } else {
        JoinPrepend([s[0]], rest, sep);
      }
      assert s == [s[0]] + s[1..];
    }
  }

  lemma JoinAfterEmpty(parts: seq<string>, sep: char)
    requires |parts| >= 1
    ensures Join([""] + parts, sep) == [sep] + Join(parts, sep)
  {
    assert ([""] + parts)[1..] == parts;
  }

  lemma JoinPrepend(x: string, parts: seq<string>, sep: char)
    requires |parts| >= 1
    ensures Join([x + parts[0]] + parts[1..], sep) == x + Join(parts, sep)
  {
    var ps := [x + parts[0]] + parts[1..];
    if |parts| > 1 {
      assert ps[1..] == parts[1..];
      assert ps[0] + [sep] + Join(parts[1..], sep) == x + (parts[0] + [sep] + Join(parts[1..], sep));
    }
  }

  /** `parts.join(sep)`. */
  function Join(parts: seq<string>, sep: char): string
    requires |parts| >= 1
  {
    if |parts| == 1 then parts[0] else parts[0] + [sep] + Join(parts[1..], sep)
  }

  lemma JoinTwo(parts: seq<string>, sep: char)
    requires |parts| == 2
    ensures Join(parts, sep) == parts[0] + [sep] + parts[1]
  {
    assert parts[1..] == [parts[1]];
  }

  /** Splitting after a separator-free prefix: the prefix is the first part. */
  lemma {:induction false} SplitAfterFirst(a: string, sep: char, b: string)
    requires sep !in a
    ensures Split(a + [sep] + b, sep) == [a] + Split(b, sep)
  {
    if a != [] {
      assert (a + [sep] + b)[1..] == a[1..] + [sep] + b;
      SplitAfterFirst(a[1..], sep, b);
      assert a == [a[0]] + a[1..];
    } else {
      assert (a + [sep] + b)[1..] == b;
    }
  }

  /** Appending one separator and a separator-free tail appends one part. */
  lemma {:induction false} SplitAppend(a: string, sep: char, b: string)
    requires sep !in b
    ensures Split(a + [sep] + b, sep) == Split(a, sep) + [b]
  {
    if a == [] {
      assert a + [sep] + b == [sep] + b;
      assert ([sep] + b)[1..] == b;
      SplitOfPlain(b, sep);
    } else {
      assert (a + [sep] + b)[1..] == a[1..] + [sep] + b;
      SplitAppend(a[1..], sep, b);
    }
  }

  /** A string without the separator splits into itself. */
  lemma SplitOfPlain(s: string, sep: char)
    requires sep !in s
    ensures Split(s, sep) == [s]
  {
    if s != [] {
      SplitOfPlain(s[1..], sep);
      assert s == [s[0]] + s[1..];
    }
  }

  /**
   * `s.replace(/pat/g, rep)` for a literal pattern: scanning left to right, every
   * non-overlapping occurrence is replaced.
   */
  function ReplaceAll(s: string, pat: string, rep: string): (r: string)
    requires pat != []
    ensures pat[0] !in s ==> r == s
    decreases |s|
  {
    if |s| < |pat| then s
    else if s[..|pat|] == pat then rep + ReplaceAll(s[|pat|..], pat, rep)
    else [s[0]] + ReplaceAll(s[1..], pat, rep)
  }

  /** `str.replace(/~1/g, '/').replace(/~0/g, '~')`: `~1` is undone first, then `~0`. */
  function UnescapeJsonPointer(s: string): (r: string)
    ensures '~' !in s ==> r == s
  {
    ReplaceAll(ReplaceAll(s, "~1", "/"), "~0", "~")
  }

  /** The escaping of section 3 of RFC 6901: `~` is written `~0` and `/` is written `~1`. */
  function EscapeJsonPointer(s: string): string {
    if s == [] then [] else EscapeChar(s[0]) + EscapeJsonPointer(s[1..])
  }

  function EscapeChar(c: char): string {
    if c == '~' then "~0" else if c == '/' then "~1" else [c]
  }

  /** Half-escaped: only `~` is written `~0`; what is left after the `~1` pass. */
  function EscapeTildes(s: string): string {
    if s == [] then [] else EscapeTilde(s[0]) + EscapeTildes(s[1..])
  }

  function EscapeTilde(c: char): string {
    if c == '~' then "~0" else [c]
  }

  /** Where the pattern does not start, the first character is kept. */
  lemma ReplaceAllMiss(s: string, pat: string, rep: string)
    requires pat != [] && s != [] && !(|pat| <= |s| && s[..|pat|] == pat)
    ensures ReplaceAll(s, pat, rep) == [s[0]] + ReplaceAll(s[1..], pat, rep)
  {
  }

  lemma ReplaceAllHit(t: string, pat: string, rep: string)
    requires pat != []
    ensures ReplaceAll(pat + t, pat, rep) == rep + ReplaceAll(t, pat, rep)
  {
    assert (pat + t)[..|pat|] == pat;
    assert (pat + t)[|pat|..] == t;
  }

  lemma {:induction false} UndoSlashes(s: string)
    ensures ReplaceAll(EscapeJsonPointer(s), "~1", "/") == EscapeTildes(s)
  {
    if s != [] {
      UndoSlashes(s[1..]);
      UndoSlash(s[0], EscapeJsonPointer(s[1..]));
    }
  }

  /** The `~1` pass turns one escaped character into its half-escaped form. */
  lemma UndoSlash(c: char, t: string)
    ensures ReplaceAll(EscapeChar(c) + t, "~1", "/") == EscapeTilde(c) + ReplaceAll(t, "~1", "/")
  {
    if c == '~' {
      KeepEscapedTilde(t);
    } else if c == '/' {
      ReplaceAllHit(t, "~1", "/");
    } else {
      assert ([c] + t)[0] == c != '~' && ([c] + t)[1..] == t;
      ReplaceAllMiss([c] + t, "~1", "/");
    }
  }

  /** `~0` holds no `~1`, not even with what follows it. */
  lemma KeepEscapedTilde(t: string)
    ensures ReplaceAll("~0" + t, "~1", "/") == "~0" + ReplaceAll(t, "~1", "/")
  {
    var u := "~0" + t;
    assert u[1..] == ['0'] + t && (['0'] + t)[1..] == t;
    ReplaceAllMiss(u, "~1", "/");
    ReplaceAllMiss(['0'] + t, "~1", "/");
  }

  lemma {:induction false} UndoTildes(s: string)
    ensures ReplaceAll(EscapeTildes(s), "~0", "~") == s
  {
    if s != [] {
      UndoTildes(s[1..]);
      UndoTilde(s[0], EscapeTildes(s[1..]));
      assert s == [s[0]] + s[1..];
    }
  }

  /** The `~0` pass turns one half-escaped character back into itself. */
  lemma UndoTilde(c: char, t: string)
    ensures ReplaceAll(EscapeTilde(c) + t, "~0", "~") == [c] + ReplaceAll(t, "~0", "~")
  {
    if c == '~' {
      ReplaceAllHit(t, "~0", "~");
    } else {
      assert ([c] + t)[0] == c != '~' && ([c] + t)[1..] == t;
      ReplaceAllMiss([c] + t, "~0", "~");
    }
  }

  /** Unescaping inverts the escaping of RFC 6901, for every string. */
  lemma UnescapeEscape(s: string)
    ensures UnescapeJsonPointer(EscapeJsonPointer(s)) == s
  {
    UndoSlashes(s);
    UndoTildes(s);
  }

  /** The `~1`-first order of the source: `~01` reads as `~1`, never as `/`. */
  lemma UnescapeOrder()
    ensures UnescapeJsonPointer("~01") == "~1"
    ensures UnescapeJsonPointer("~1") == "/"
    ensures UnescapeJsonPointer("~0") == "~"
  {
    assert "~01"[..2] == "~0" && "~01"[1..] == "01" && "01"[1..] == "1";
    assert "~0"[1..] == "0" && ("~1" + "")[..2] == "~1";
    ReplaceAllMiss("~01", "~1", "/");
    ReplaceAllMiss("01", "~1", "/");
    ReplaceAllHit("1", "~0", "~");
    ReplaceAllHit("", "~1", "/");
    ReplaceAllMiss("~0", "~1", "/");
    ReplaceAllHit("", "~0", "~");
  }

  // ---------------------------------------------------------------------------------------
  // decodeURIComponent (the Decode operation of ECMA-262 with an empty reserved set)
  // ---------------------------------------------------------------------------------------

  /** The URIError `decodeURIComponent` throws on a malformed escape or UTF-8 sequence. */
  datatype UriError = MalformedEscape

  function HexValue(c: char): Option<nat> {
    if '0' <= c <= '9' then Some(c as int - '0' as int)
    else if 'a' <= c <= 'f' then Some(c as int - 'a' as int + 10)
    else if 'A' <= c <= 'F' then Some(c as int - 'A' as int + 10)
    else None
  }

  /** The octet written as `%XY` at position `k`, if there is one. */
  function EscapedOctet(s: string, k: nat): (r: Option<nat>)
    ensures r.Some? ==> r.value < 256 && k + 3 <= |s| && s[k] == '%'
  {
    if k + 3 <= |s| && s[k] == '%' && HexValue(s[k + 1]).Some? && HexValue(s[k + 2]).Some? then
      Some(16 * HexValue(s[k + 1]).value + HexValue(s[k + 2]).value)
    else None
  }

  /** The number of leading one bits of an octet, as far as 5. */
  function LeadingOnes(b: nat): nat
    requires b < 256
  {
    if b < 0x80 then 0 else if b < 0xC0 then 1 else if b < 0xE0 then 2 else if b < 0xF0 then 3
    else if b < 0xF8 then 4 else 5
  }

  /** Reads `count` escaped continuation octets (`10xxxxxx`) from `k`, accumulating their bits. */
  function Continuation(s: string, k: nat, count: nat, acc: nat): Option<nat>
    decreases count
  {
    if count == 0 then Some(acc)
    else match EscapedOctet(s, k)
      case None => None
      case Some(c) =>
        if 0x80 <= c < 0xC0 then Continuation(s, k + 3, count - 1, acc * 64 + (c - 0x80)) else None
  }

  /** The shortest-form code point ranges of n-octet UTF-8, surrogates excluded. */
  predicate WellFormedCodePoint(cp: nat, n: nat) {
    if n == 2 then 0x80 <= cp <= 0x7FF
    else if n == 3 then 0x800 <= cp <= 0xFFFF && !(0xD800 <= cp <= 0xDFFF)
    else n == 4 && 0x10000 <= cp <= 0x10FFFF
  }

  /** Decodes `s[k..]`: characters other than `%` stand for themselves. */
  function DecodeFrom(s: string, k: nat): Result<string, UriError>
    requires k <= |s|
    decreases |s| - k, 1
  {
    if k == |s| then Success("")
    else if s[k] != '%' then
      var rest :- DecodeFrom(s, k + 1);
      Success([s[k]] + rest)
    else DecodeEscape(s, k)
  }

  /**
   * Decodes the escape at `k` and the rest after it: one octet below 0x80, or a UTF-8 lead
   * octet and its continuation octets forming a well-formed, shortest-form code point.
   */
  function DecodeEscape(s: string, k: nat): Result<string, UriError>
    requires k < |s|
    decreases |s| - k, 0
  {
    match EscapedOctet(s, k)
    case None => Failure(MalformedEscape)
    case Some(b) =>
      var n := LeadingOnes(b);
      if n == 0 then
        var rest :- DecodeFrom(s, k + 3);
        Success([b as char] + rest)
      else if n == 1 || n > 4 then Failure(MalformedEscape)
      else
        var lead := if n == 2 then b - 0xC0 else if n == 3 then b - 0xE0 else b - 0xF0;
        match Continuation(s, k + 3, n - 1, lead)
        case None => Failure(MalformedEscape)
        case Some(cp) =>
          if !WellFormedCodePoint(cp, n) || k + 3 * n > |s| then Failure(MalformedEscape)
          else
            var rest :- DecodeFrom(s, k + 3 * n);
            Success([cp as char] + rest)
  }

  /** `decodeURIComponent(s)`. */
  function PercentDecode(s: string): Result<string, UriError> {
    DecodeFrom(s, 0)
  }

  lemma {:induction false} DecodeFromPlain(s: string, k: nat)
    requires k <= |s| && '%' !in s[k..]
    ensures DecodeFrom(s, k) == Success(s[k..])
    decreases |s| - k
  {
    if k < |s| {
      assert s[k] == s[k..][0] && s[k] != '%';
      assert s[k + 1..] == s[k..][1..];
      DecodeFromPlain(s, k + 1);
      assert DecodeFrom(s, k) == Success([s[k]] + s[k + 1..]);
      assert s[k..] == [s[k]] + s[k + 1..];
    } else {
      assert s[k..] == "";
    }
  }

  /** Without a `%`, percent-decoding leaves the string as it is. */
  lemma PercentDecodePlain(s: string)
    requires '%' !in s
    ensures PercentDecode(s) == Success(s)
  {
    DecodeFromPlain(s, 0);
  }

  /** `unescapeFragment`: percent-decoding first, then the JSON Pointer escapes. */
  function UnescapeFragment(segment: string): Result<string, UriError> {
    var decoded :- PercentDecode(segment);
    Success(UnescapeJsonPointer(decoded))
  }

  /** A segment with no `%` and no `~` is its own key. */
  lemma UnescapeFragmentPlain(segment: string)
    requires '%' !in segment && '~' !in segment
    ensures UnescapeFragment(segment) == Success(segment)
  {
    PercentDecodePlain(segment);
  }

  // ---------------------------------------------------------------------------------------
  // encodeURIComponent, which decoding undoes
  // ---------------------------------------------------------------------------------------

  /** The characters `encodeURIComponent` leaves as they are. */
  predicate Unreserved(c: char) {
    || 'A' <= c <= 'Z' || 'a' <= c <= 'z' || '0' <= c <= '9'
    || c == '-' || c == '_' || c == '.' || c == '!' || c == '~' || c == '*' || c == '\'' || c == '(' || c == ')'
  }

  type Octet = b: nat | b < 256

  /** An upper-case hexadecimal digit. */
  function HexDigit(d: nat): (c: char)
    requires d < 16
    ensures HexValue(c) == Some(d)
  {
    if d < 10 then ('0' as int + d) as char else ('A' as int + (d - 10)) as char
  }

  /** `%XY` for one octet. */
  function EscapeOctet(b: nat): (e: string)
    requires b < 256
    ensures |e| == 3
  {
    ['%', HexDigit(b / 16), HexDigit(b % 16)]
  }

  /** The UTF-8 octets of a character, in the shortest form. */
  function Utf8(c: char): (bs: seq<Octet>)
    ensures 1 <= |bs| <= 4
  {
    var cp := c as int;
    if cp < 0x80 then [cp]
    else if cp < 0x800 then [0xC0 + cp / 64, 0x80 + cp % 64]
    else if cp < 0x10000 then [0xE0 + cp / 4096, 0x80 + cp / 64 % 64, 0x80 + cp % 64]
    else [0xF0 + cp / 262144, 0x80 + cp / 4096 % 64, 0x80 + cp / 64 % 64, 0x80 + cp % 64]
  }

  function EscapeOctets(bs: seq<Octet>): (e: string)
    ensures |e| == 3 * |bs|
  {
    if bs == [] then [] else EscapeOctet(bs[0]) + EscapeOctets(bs[1..])
  }

  /**
   * `encodeURIComponent` of one character: an unreserved character stands for itself, any
   * other is the escapes of its UTF-8 octets.
   */
  function EncodeChar(c: char): string {
    if Unreserved(c) then [c] else EscapeOctets(Utf8(c))
  }

  /** `f(s[0]) + f(s[1]) + ...`: a string written character by character. */
  function ConcatMap(f: char -> string, s: string): string {
    if s == [] then [] else f(s[0]) + ConcatMap(f, s[1..])
  }

  /** `encodeURIComponent`, character by character. */
  function PercentEncode(s: string): string {
    ConcatMap(EncodeChar, s)
  }

  lemma EscapeOctetRead(t: string, k: nat, b: nat)
    requires b < 256 && k + 3 <= |t| && t[k..k + 3] == EscapeOctet(b)
    ensures EscapedOctet(t, k) == Some(b)
  {
    assert t[k] == t[k..k + 3][0] && t[k + 1] == t[k..k + 3][1] && t[k + 2] == t[k..k + 3][2];
  }

  lemma SliceSplit(t: string, k: nat, a: string, b: string)
    requires k + |a| + |b| <= |t| && t[k..k + |a| + |b|] == a + b
    ensures t[k..k + |a|] == a && t[k + |a|..k + |a| + |b|] == b
  {
    var w := t[k..k + |a| + |b|];
    assert t[k..k + |a|] == w[..|a|] && w[..|a|] == a;
    assert t[k + |a|..k + |a| + |b|] == w[|a|..] && w[|a|..] == b;
  }

  lemma SuffixSplit(t: string, k: nat, a: string, b: string)
    requires k + |a| + |b| == |t| && t[k..] == a + b
    ensures t[k..k + |a|] == a && t[k + |a|..] == b
  {
    assert t[k..k + |a|] == t[k..][..|a|] && t[k + |a|..] == t[k..][|a|..];
    assert (a + b)[..|a|] == a && (a + b)[|a|..] == b;
  }

  /** Every escape of an escaped run of octets reads back as its octet. */
  lemma {:induction false} EscapesRead(t: string, k: nat, bs: seq<Octet>)
    requires k + 3 * |bs| <= |t| && t[k..k + 3 * |bs|] == EscapeOctets(bs)
    ensures forall i | 0 <= i < |bs| :: EscapedOctet(t, k + 3 * i) == Some(bs[i])
    decreases bs
  {
    if bs != [] {
      SliceSplit(t, k, EscapeOctet(bs[0]), EscapeOctets(bs[1..]));
      EscapeOctetRead(t, k, bs[0]);
      EscapesRead(t, k + 3, bs[1..]);
      forall i | 1 <= i < |bs| ensures EscapedOctet(t, k + 3 * i) == Some(bs[i]) {
        assert k + 3 * i == k + 3 + 3 * (i - 1) && bs[i] == bs[1..][i - 1];
      }
    }
  }

  /** Decoding at `k` reads the character `c` and continues at `k + n`. */
  predicate DecodesTo(t: string, k: nat, c: char, n: nat)
    requires k + n <= |t|
  {
    var rest := DecodeFrom(t, k + n);
    DecodeFrom(t, k) == if rest.Failure? then rest else Success([c] + rest.value)
  }

  /** A lead octet of `n` ones whose continuation yields a well-formed `cp` decodes to `cp`. */
  lemma DecodeLead(t: string, k: nat, b: nat, n: nat, cp: nat)
    requires k + 3 * n <= |t| && b < 256 && EscapedOctet(t, k) == Some(b) && 2 <= n <= 4 && LeadingOnes(b) == n
    requires Continuation(t, k + 3, n - 1, if n == 2 then b - 0xC0 else if n == 3 then b - 0xE0 else b - 0xF0) == Some(cp)
    requires WellFormedCodePoint(cp, n)
    ensures cp <= 0x10FFFF && !(0xD800 <= cp <= 0xDFFF) && DecodesTo(t, k, cp as char, 3 * n)
  {
    var rest := DecodeFrom(t, k + 3 * n);
    assert DecodeEscape(t, k) == if rest.Failure? then rest else Success([cp as char] + rest.value);
  }

  lemma ContinuationStep(t: string, k: nat, count: nat, acc: nat, b: nat)
    requires count >= 1 && EscapedOctet(t, k) == Some(b) && 0x80 <= b < 0xC0
    ensures Continuation(t, k, count, acc) == Continuation(t, k + 3, count - 1, acc * 64 + (b - 0x80))
  {
  }

  lemma SixBitGroups(cp: nat)
    ensures cp / 64 * 64 + cp % 64 == cp
    ensures cp / 4096 * 64 + cp / 64 % 64 == cp / 64
    ensures cp / 262144 * 64 + cp / 4096 % 64 == cp / 4096
  {
    assert cp / 4096 == cp / 64 / 64 && cp / 262144 == cp / 4096 / 64;
  }

  lemma DecodeTwoFrom(t: string, k: nat, cp: nat)
    requires 0x80 <= cp < 0x800 && k + 6 <= |t|
    requires EscapedOctet(t, k) == Some(0xC0 + cp / 64)
    requires EscapedOctet(t, k + 3) == Some(0x80 + cp % 64)
    ensures DecodesTo(t, k, cp as char, 6)
  {
    SixBitGroups(cp);
    ContinuationStep(t, k + 3, 1, cp / 64, 0x80 + cp % 64);
    DecodeLead(t, k, 0xC0 + cp / 64, 2, cp);
  }

  lemma DecodeThreeFrom(t: string, k: nat, cp: nat)
    requires 0x800 <= cp < 0x10000 && !(0xD800 <= cp <= 0xDFFF) && k + 9 <= |t|
    requires EscapedOctet(t, k) == Some(0xE0 + cp / 4096)
    requires EscapedOctet(t, k + 3) == Some(0x80 + cp / 64 % 64)
    requires EscapedOctet(t, k + 6) == Some(0x80 + cp % 64)
    ensures DecodesTo(t, k, cp as char, 9)
  {
    SixBitGroups(cp);
    ContinuationStep(t, k + 3, 2, cp / 4096, 0x80 + cp / 64 % 64);
    ContinuationStep(t, k + 6, 1, cp / 64, 0x80 + cp % 64);
    DecodeLead(t, k, 0xE0 + cp / 4096, 3, cp);
  }

  lemma DecodeFourFrom(t: string, k: nat, cp: nat)
    requires 0x10000 <= cp <= 0x10FFFF && k + 12 <= |t|
    requires EscapedOctet(t, k) == Some(0xF0 + cp / 262144)
    requires EscapedOctet(t, k + 3) == Some(0x80 + cp / 4096 % 64)
    requires EscapedOctet(t, k + 6) == Some(0x80 + cp / 64 % 64)
    requires EscapedOctet(t, k + 9) == Some(0x80 + cp % 64)
    ensures DecodesTo(t, k, cp as char, 12)
  {
    SixBitGroups(cp);
    ContinuationStep(t, k + 3, 3, cp / 262144, 0x80 + cp / 4096 % 64);
    ContinuationStep(t, k + 6, 2, cp / 4096, 0x80 + cp / 64 % 64);
    ContinuationStep(t, k + 9, 1, cp / 64, 0x80 + cp % 64);
    DecodeLead(t, k, 0xF0 + cp / 262144, 4, cp);
  }

  lemma DecodesToThen(t: string, k: nat, c: char, n: nat, r: string)
    requires k + n <= |t| && DecodesTo(t, k, c, n) && DecodeFrom(t, k + n) == Success(r)
    ensures DecodeFrom(t, k) == Success([c] + r)
  {
  }

  lemma DecodesAnEncodedChar(t: string, k: nat, c: char)
    requires k + |EncodeChar(c)| <= |t| && t[k..k + |EncodeChar(c)|] == EncodeChar(c)
    ensures DecodesTo(t, k, c, |EncodeChar(c)|)
  {
    if Unreserved(c) {
      assert t[k] == t[k..k + 1][0] == c;
    } else {
      EscapesRead(t, k, Utf8(c));
      DecodesOctetsOf(t, k, c);
    }
  }

  /** The escaped UTF-8 octets of `c` at `k`. */
  predicate OctetsAt(t: string, k: nat, c: char) {
    forall i | 0 <= i < |Utf8(c)| :: EscapedOctet(t, k + 3 * i) == Some(Utf8(c)[i])
  }

  /** Escapes of the UTF-8 octets of `c` decode to `c`. */
  lemma DecodesOctetsOf(t: string, k: nat, c: char)
    requires k + 3 * |Utf8(c)| <= |t| && OctetsAt(t, k, c)
    ensures DecodesTo(t, k, c, 3 * |Utf8(c)|)
  {
    var cp := c as int;
    if cp < 0x80 {
      DecodeOneOf(t, k, c);
    } else if cp < 0x800 {
      DecodeTwoOf(t, k, c);
    } else if cp < 0x10000 {
      DecodeThreeOf(t, k, c);
    } else {
      DecodeFourOf(t, k, c);
    }
  }

  lemma DecodeOneOf(t: string, k: nat, c: char)
    requires c as int < 0x80 && k + 3 <= |t| && OctetsAt(t, k, c)
    ensures DecodesTo(t, k, c, 3)
  {
    assert EscapedOctet(t, k + 3 * 0) == Some(Utf8(c)[0]);
  }

  lemma DecodeTwoOf(t: string, k: nat, c: char)
    requires 0x80 <= c as int < 0x800 && k + 6 <= |t| && OctetsAt(t, k, c)
    ensures DecodesTo(t, k, c, 6)
  {
    var bs := Utf8(c);
    assert EscapedOctet(t, k + 3 * 0) == Some(bs[0]) && EscapedOctet(t, k + 3 * 1) == Some(bs[1]);
    DecodeTwoFrom(t, k, c as int);
  }

  lemma DecodeThreeOf(t: string, k: nat, c: char)
    requires 0x800 <= c as int < 0x10000 && k + 9 <= |t| && OctetsAt(t, k, c)
    ensures DecodesTo(t, k, c, 9)
  {
    var bs := Utf8(c);
    assert EscapedOctet(t, k + 3 * 0) == Some(bs[0]) && EscapedOctet(t, k + 3 * 1) == Some(bs[1]);
    assert EscapedOctet(t, k + 3 * 2) == Some(bs[2]);
    DecodeThreeFrom(t, k, c as int);
  }

  lemma DecodeFourOf(t: string, k: nat, c: char)
    requires 0x10000 <= c as int && k + 12 <= |t| && OctetsAt(t, k, c)
    ensures DecodesTo(t, k, c, 12)
  {
    var bs := Utf8(c);
    assert EscapedOctet(t, k + 3 * 0) == Some(bs[0]) && EscapedOctet(t, k + 3 * 1) == Some(bs[1]);
    assert EscapedOctet(t, k + 3 * 2) == Some(bs[2]) && EscapedOctet(t, k + 3 * 3) == Some(bs[3]);
    DecodeFourFrom(t, k, c as int);
  }

  /** Wherever `e` is written, decoding reads `c` from it and goes on right after it. */
  ghost predicate ReadsBack(e: string, c: char) {
    forall t: string, k: nat | k + |e| <= |t| && t[k..k + |e|] == e ::
      DecodesTo(t, k, c, |e|)
  }

  lemma EncodeCharReadsBack(c: char)
    ensures ReadsBack(EncodeChar(c), c)
  {
    forall t: string, k: nat | k + |EncodeChar(c)| <= |t| && t[k..k + |EncodeChar(c)|] == EncodeChar(c)
      ensures DecodesTo(t, k, c, |EncodeChar(c)|)
    {
      DecodesAnEncodedChar(t, k, c);
    }
  }

  /** A string written as pieces that each read back as their character decodes to the string. */
  lemma {:induction false} DecodeConcatMap(t: string, k: nat, f: char -> string, s: string)
    requires forall c :: ReadsBack(f(c), c)
    requires k + |ConcatMap(f, s)| == |t| && t[k..] == ConcatMap(f, s)
    ensures DecodeFrom(t, k) == Success(s)
    decreases s
  {
    if s != [] {
      var e := f(s[0]);
      SuffixSplit(t, k, e, ConcatMap(f, s[1..]));
      DecodeConcatMap(t, k + |e|, f, s[1..]);
      assert ReadsBack(e, s[0]);
      assert DecodesTo(t, k, s[0], |e|);
      DecodesToThen(t, k, s[0], |e|, s[1..]);
      assert [s[0]] + s[1..] == s;
    }
  }

  /** `decodeURIComponent` undoes `encodeURIComponent`. */
  lemma PercentDecodeEncode(s: string)
    ensures PercentDecode(PercentEncode(s)) == Success(s)
  {
    forall c ensures ReadsBack(EncodeChar(c), c) {
      EncodeCharReadsBack(c);
    }
    var t := PercentEncode(s);
    assert t[0..] == t;
    DecodeConcatMap(t, 0, EncodeChar, s);
  }
}
