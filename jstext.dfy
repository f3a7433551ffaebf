/** The JavaScript string operations the translator relies on, written out:
    `trim`, ASCII `toLowerCase`, `includes`, `startsWith`, `split`,
    `Number.prototype.toString(16)`, `padStart` and `parseInt(s, 16)`. */
module JsText {
  import opened Common

  /** The characters `String.prototype.trim` removes: WhiteSpace and LineTerminator. */
  predicate IsJsWhitespace(c: char) {
    var n := c as int;
    n == 0x09 || n == 0x0B || n == 0x0C || n == 0x20 || n == 0xA0 || n == 0xFEFF
    || n == 0x1680 || (0x2000 <= n <= 0x200A) || n == 0x202F || n == 0x205F || n == 0x3000
    || n == 0x0A || n == 0x0D || n == 0x2028 || n == 0x2029
  }

  /** Drops leading whitespace. */
  function TrimStart(s: string): (r: string)
    ensures |r| <= |s| && r == s[|s| - |r|..]
    ensures forall k :: 0 <= k < |s| - |r| ==> IsJsWhitespace(s[k])
    ensures r != "" ==> !IsJsWhitespace(r[0])
  {
    if s != "" && IsJsWhitespace(s[0]) then TrimStart(s[1..]) else s
  }

  /** Drops trailing whitespace. */
  function TrimEnd(s: string): (r: string)
    ensures |r| <= |s| && r == s[..|r|]
    ensures forall k :: |r| <= k < |s| ==> IsJsWhitespace(s[k])
    ensures r != "" ==> !IsJsWhitespace(r[|r| - 1])
  {
    if s != "" && IsJsWhitespace(s[|s| - 1]) then TrimEnd(s[..|s| - 1]) else s
  }

  /** `s.trim()`. */
  function Trim(s: string): string {
    TrimEnd(TrimStart(s))
  }

  /** A string trims to the empty string exactly when it is all whitespace. */
  lemma TrimEmptyIff(s: string)
    ensures Trim(s) == "" <==> forall k :: 0 <= k < |s| ==> IsJsWhitespace(s[k])
  {
  }

  /** A trimmed string has no whitespace at either end. */
  lemma TrimEnds(s: string)
    ensures Trim(s) != "" ==> !IsJsWhitespace(Trim(s)[0]) && !IsJsWhitespace(Trim(s)[|Trim(s)| - 1])
  {
    var t := TrimStart(s);
    var r := TrimEnd(t);
    if r != "" {
      assert r[0] == t[0];
    }
  }

  /** A string without whitespace at either end is its own trim. */
  lemma TrimOfTrimmed(s: string)
    requires s != "" ==> !IsJsWhitespace(s[0]) && !IsJsWhitespace(s[|s| - 1])
    ensures Trim(s) == s
  {
  }

  /** `trim` is idempotent. */
  lemma TrimIdempotent(s: string)
    ensures Trim(Trim(s)) == Trim(s)
  {
    TrimEnds(s);
    TrimOfTrimmed(Trim(s));
  }

  /** Every character of `s.trim()` is a character of `s`. */
  lemma TrimChars(s: string)
    ensures forall c :: c in Trim(s) ==> c in s
  {
    var t := TrimStart(s);
    var r := TrimEnd(t);
    forall c | c in r ensures c in s {
      var i :| 0 <= i < |r| && r[i] == c;
      assert t[i] == c;
      assert s[|s| - |t| + i] == c;
    }
  }

  /** Leading whitespace is dropped by `trim`. */
  lemma TrimDropsLeading(c: char, s: string)
    requires IsJsWhitespace(c)
    ensures Trim([c] + s) == Trim(s)
  {
    assert ([c] + s)[1..] == s;
  }

  /** Trailing whitespace is dropped by `trim`. */
  lemma TrimDropsTrailing(s: string, c: char)
    requires IsJsWhitespace(c)
    ensures Trim(s + [c]) == Trim(s)
  {
    var t := s + [c];
    if s != "" && !IsJsWhitespace(s[0]) {
      assert TrimStart(t) == t && TrimStart(s) == s;
      assert t[..|t| - 1] == s;
    } else if s == "" {
      assert TrimStart(t) == "";
    } else {
      assert t[1..] == s[1..] + [c];
      TrimDropsTrailing(s[1..], c);
    }
  }

  /** ASCII case folding, the part of `toLowerCase` this model keeps. */
  function LowerChar(c: char): char {
    if 'A' <= c <= 'Z' then (c as int + 32) as char else c
  }

  function ToLower(s: string): (r: string)
    ensures |r| == |s|
    ensures forall k :: 0 <= k < |s| ==> r[k] == LowerChar(s[k])
  {
    if s == "" then "" else [LowerChar(s[0])] + ToLower(s[1..])
  }

  predicate StartsWith(s: string, prefix: string) {
    |prefix| <= |s| && s[..|prefix|] == prefix
  }

  /** `s.includes(t)`: scans for a position of `s` that starts a copy of `t`. */
  predicate Contains(s: string, t: string)
    decreases |s|
  {
    StartsWith(s, t) || (s != "" && Contains(s[1..], t))
  }

  /** `t` occurs in `s` at position `k`. */
  predicate OccursAt(s: string, t: string, k: int) {
    0 <= k <= |s| - |t| && s[k..k + |t|] == t
  }

  /** The scan finds `t` exactly when `t` occurs somewhere in `s`. */
  lemma {:induction false} ContainsIff(s: string, t: string)
    ensures Contains(s, t) <==> exists k :: OccursAt(s, t, k)
    decreases |s|
  {
    if StartsWith(s, t) {
      assert OccursAt(s, t, 0);
    }
    if s != "" {
      ContainsIff(s[1..], t);
      if Contains(s[1..], t) {
        var k :| OccursAt(s[1..], t, k);
        assert s[k + 1..k + 1 + |t|] == s[1..][k..k + |t|];
        assert OccursAt(s, t, k + 1);
      }
      if k :| OccursAt(s, t, k) {
        if k > 0 {
          assert s[1..][k - 1..k - 1 + |t|] == s[k..k + |t|];
          assert OccursAt(s[1..], t, k - 1);
        } else {
          assert StartsWith(s, t);
        }
      }
    } else if k :| OccursAt(s, t, k) {
      assert StartsWith(s, t);
    }
  }

  /** `s.split(sep)` for a one-character separator. */
  function Split(s: string, sep: char): (r: seq<string>)
    ensures |r| >= 1
    ensures forall j :: 0 <= j < |r| ==> sep !in r[j]
    ensures sep in s ==> |r| >= 2
    ensures sep !in s ==> r == [s]
    decreases |s|
  {
    if s == "" then [""]
    else
      var rest := Split(s[1..], sep);
      if s[0] == sep then [""] + rest
      else
        assert [s[0]] + s[1..] == s;
        [[s[0]] + rest[0]] + rest[1..]
  }

  /** Every character of a piece is a character of the split string. */
  lemma {:induction false} SplitChars(s: string, sep: char)
    ensures forall j, c :: 0 <= j < |Split(s, sep)| && c in Split(s, sep)[j] ==> c in s
    decreases |s|
  {
    if s != "" {
      SplitChars(s[1..], sep);
      var rest := Split(s[1..], sep);
      var r := Split(s, sep);
      assert forall c :: c in s[1..] ==> c in s;
      forall j, c | 0 <= j < |r| && c in r[j] ensures c in s {
        if s[0] == sep {
          if j > 0 {
            assert r[j] == rest[j - 1];
          }
        } else if j == 0 {
          assert r[0] == [s[0]] + rest[0];
          if c != s[0] {
            assert c in rest[0];
          }
        } else {
          assert r[j] == rest[j];
        }
      }
    }
  }

  /** Splitting `a + [sep] + b` with no separator in `a` yields `a` then the pieces of `b`. */
  lemma {:induction false} SplitAppend(a: string, b: string, sep: char)
    requires sep !in a
    ensures Split(a + [sep] + b, sep) == [a] + Split(b, sep)
    decreases |a|
  {
    if a == "" {
      assert (a + [sep] + b)[1..] == b;
    } else {
      SplitAppend(a[1..], b, sep);
      var s := a + [sep] + b;
      assert s[0] == a[0] && s[0] != sep;
      assert s[1..] == a[1..] + [sep] + b;
      var rest := Split(s[1..], sep);
      assert rest == [a[1..]] + Split(b, sep);
      assert [a[0]] + a[1..] == a;
    }
  }

  // ---------------------------------------------------------------------
  // Hexadecimal text

  predicate IsHexDigit(c: char) {
    ('0' <= c <= '9') || ('a' <= c <= 'f') || ('A' <= c <= 'F')
  }

  function DigitValue(c: char): (v: int)
    requires IsHexDigit(c)
    ensures 0 <= v < 16
  {
    if '0' <= c <= '9' then c as int - '0' as int
    else if 'a' <= c <= 'f' then c as int - 'a' as int + 10
    else c as int - 'A' as int + 10
  }

  /** The upper-case digit for `d`. */
  function HexDigit(d: int): (c: char)
    requires 0 <= d < 16
    ensures IsHexDigit(c) && DigitValue(c) == d
  {
    if d < 10 then ('0' as int + d) as char else ('A' as int + d - 10) as char
  }

  /** `n.toString(16).toUpperCase()` for a non-negative integer. */
  function HexUpper(n: nat): (r: string)
    ensures |r| >= 1
    ensures forall k :: 0 <= k < |r| ==> IsHexDigit(r[k])
    decreases n
  {
    if n < 16 then [HexDigit(n)] else HexUpper(n / 16) + [HexDigit(n % 16)]
  }

  /** `n.toString(16).toUpperCase()` for any integer. */
  function HexString(n: int): string {
    if n < 0 then "-" + HexUpper(-n) else HexUpper(n)
  }

  /** `s.padStart(width, c)`. */
  function PadStart(s: string, width: int, c: char): (r: string)
    ensures |r| == Max(|s|, width)
    ensures r[|r| - |s|..] == s
    ensures forall k :: 0 <= k < |r| - |s| ==> r[k] == c
  {
    if |s| >= width then s else seq(width - |s|, _ => c) + s
  }

  /** A hex digit is not whitespace, a separator or a sign. */
  lemma HexDigitFacts(c: char)
    requires IsHexDigit(c)
    ensures !IsJsWhitespace(c) && c != '=' && c != '\n' && c != '/' && c != '-' && c != '+' && c != 'x' && c != 'X'
  {
  }

  /** The value of a run of hex digits, most significant first. */
  function HexValue(s: string): nat
    requires forall k :: 0 <= k < |s| ==> IsHexDigit(s[k])
  {
    if s == "" then 0 else HexValue(s[..|s| - 1]) * 16 + DigitValue(s[|s| - 1])
  }

  /** The length of the longest prefix of hex digits. */
  function HexPrefixLen(s: string): (n: nat)
    ensures n <= |s|
    ensures forall k :: 0 <= k < n ==> IsHexDigit(s[k])
    ensures n < |s| ==> !IsHexDigit(s[n])
  {
    if s == "" || !IsHexDigit(s[0]) then 0 else 1 + HexPrefixLen(s[1..])
  }

  /** `parseInt(s, 16)`: leading whitespace, an optional sign, an optional
      `0x`/`0X`, then the longest run of hex digits; `None` stands for `NaN`. */
  function ParseIntHex(s: string): Option<int> {
    var t := TrimStart(s);
    var negative := t != "" && t[0] == '-';
    var u := if t != "" && (t[0] == '-' || t[0] == '+') then t[1..] else t;
    var v := if |u| >= 2 && u[0] == '0' && (u[1] == 'x' || u[1] == 'X') then u[2..] else u;
    var n := HexPrefixLen(v);
    var magnitude: int := if n == 0 then 0 else HexValue(v[..n]);
    if n == 0 then None else Some(if negative then -magnitude else magnitude)
  }

  /** The `0xHHHHHH` offset label of an extracted text. */
  function FormatOffset(n: nat): string {
    "0x" + PadStart(HexUpper(n), 6, '0')
  }

  // ---------------------------------------------------------------------
  // Hex round trips

  lemma {:induction false} HexValueOfHexUpper(n: nat)
    ensures HexValue(HexUpper(n)) == n
    decreases n
  {
    if n >= 16 {
      var r := HexUpper(n);
      assert r[..|r| - 1] == HexUpper(n / 16);
      HexValueOfHexUpper(n / 16);
    }
  }

  lemma {:induction false} HexValueLeadingZeros(z: string, s: string)
    requires forall k :: 0 <= k < |z| ==> z[k] == '0'
    requires forall k :: 0 <= k < |s| ==> IsHexDigit(s[k])
    ensures HexValue(z + s) == HexValue(s)
    decreases |s|, |z|
  {
    if s == "" {
      assert z + s == z;
      if z != "" {
        assert z[..|z| - 1] + "" == z[..|z| - 1];
        HexValueLeadingZeros(z[..|z| - 1], "");
      }
    } else {
      assert (z + s)[..|z + s| - 1] == z + s[..|s| - 1];
      HexValueLeadingZeros(z, s[..|s| - 1]);
    }
  }

  /** A non-empty run of hex digits parses to its value. */
  lemma ParseAllHex(p: string)
    requires p != ""
    requires forall k :: 0 <= k < |p| ==> IsHexDigit(p[k])
    ensures ParseIntHex(p) == Some(HexValue(p))
  {
    assert !IsJsWhitespace(p[0]) && p[0] != '-' && p[0] != '+';
    ParseUnsigned(p);
    if |p| >= 2 {
      assert IsHexDigit(p[1]);
    }
    AllHexPrefix(p);
  }

  /** Text that starts with neither whitespace nor a sign parses as its
      hex prefix, after an optional `0x`. */
  lemma ParseUnsigned(s: string)
    requires s != "" && !IsJsWhitespace(s[0]) && s[0] != '-' && s[0] != '+'
    ensures var v := if |s| >= 2 && s[0] == '0' && (s[1] == 'x' || s[1] == 'X') then s[2..] else s;
      var n := HexPrefixLen(v);
      ParseIntHex(s) == if n == 0 then None else Some(HexValue(v[..n]))
  {
    assert TrimStart(s) == s;
  }

  /** Text made only of hex digits is its own hex prefix. */
  lemma AllHexPrefix(p: string)
    requires forall k :: 0 <= k < |p| ==> IsHexDigit(p[k])
    ensures HexPrefixLen(p) == |p| && p[..HexPrefixLen(p)] == p
  {
    assert p[..|p|] == p;
  }

  /** Zero-padded upper-case hex text parses back to its value. */
  lemma PaddedHexRoundTrip(n: nat, width: int)
    ensures ParseIntHex(PadStart(HexUpper(n), width, '0')) == Some(n)
  {
    var h := HexUpper(n);
    var p := PadStart(h, width, '0');
    var z := p[..|p| - |h|];
    PaddedHexShape(h, width);
    ParseAllHex(p);
    HexValueLeadingZeros(z, h);
    HexValueOfHexUpper(n);
  }

  /** Zero-padding hex digits gives zeros followed by the digits. */
  lemma PaddedHexShape(h: string, width: int)
    requires forall k :: 0 <= k < |h| ==> IsHexDigit(h[k])
    ensures var p := PadStart(h, width, '0');
      var z := p[..|p| - |h|];
      && p == z + h
      && (forall k :: 0 <= k < |z| ==> z[k] == '0')
      && (forall k :: 0 <= k < |p| ==> IsHexDigit(p[k]))
  {
    var p := PadStart(h, width, '0');
    var z := p[..|p| - |h|];
    assert p == z + h;
    forall k | 0 <= k < |p| ensures IsHexDigit(p[k]) {
      if k >= |z| { assert p[k] == h[k - |z|]; }
    }
  }

  /** The offset label of a text start parses back to that start once its
      `0x` is dropped, as the rebuild step reads it. */
  lemma OffsetRoundTrip(n: nat)
    ensures |FormatOffset(n)| >= 8
    ensures ParseIntHex(FormatOffset(n)[2..]) == Some(n)
  {
    assert FormatOffset(n)[2..] == PadStart(HexUpper(n), 6, '0');
    PaddedHexRoundTrip(n, 6);
  }
}
