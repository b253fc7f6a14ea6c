/** Certificate serial numbers: a normal form for hexadecimal text, and the revocation lookup. */
module Crl {
  import opened Bytes

  predicate IsHexDigit(c: char) {
    '0' <= c <= '9' || 'a' <= c <= 'f' || 'A' <= c <= 'F'
  }

  predicate IsHex(s: string) {
    forall i :: 0 <= i < |s| ==> IsHexDigit(s[i])
  }

  function DigitValue(c: char): (v: nat)
    requires IsHexDigit(c)
    ensures v < 16
  {
    if '0' <= c <= '9' then c as int - '0' as int
    else if 'a' <= c <= 'f' then c as int - 'a' as int + 10
    else c as int - 'A' as int + 10
  }

  /** The number a hexadecimal string denotes; the empty string denotes zero. */
  function Value(s: string): nat
    requires IsHex(s)
  {
    if s == [] then 0 else 16 * Value(s[..|s| - 1]) + DigitValue(s[|s| - 1])
  }

  // ---- normalize_serial_hex ----

  function LowerChar(c: char): char {
    if 'A' <= c <= 'Z' then (c as int + 32) as char else c
  }

  function Lower(s: string): (r: string)
    ensures |r| == |s| && forall i :: 0 <= i < |s| ==> r[i] == LowerChar(s[i])
  {
    seq(|s|, i requires 0 <= i < |s| => LowerChar(s[i]))
  }

  function TrimZeros(s: string): (r: string)
    ensures |r| <= |s| && r == s[|s| - |r|..]
    ensures r != [] ==> r[0] != '0'
    ensures forall i :: 0 <= i < |s| - |r| ==> s[i] == '0'
  {
    if s != [] && s[0] == '0' then TrimZeros(s[1..]) else s
  }

  function Normalize(s: string): string {
    var trimmed := TrimZeros(Lower(s));
    if trimmed == [] then "0" else trimmed
  }

  // ---- The normal form is canonical ----

  lemma {:induction false} LowerValue(s: string)
    ensures IsHex(Lower(s)) <==> IsHex(s)
    ensures IsHex(s) ==> Value(Lower(s)) == Value(s)
  {
    assert forall i :: 0 <= i < |s| ==> (IsHexDigit(Lower(s)[i]) <==> IsHexDigit(s[i]));
    if s != [] && IsHex(s) {
      var n := |s| - 1;
      LowerValue(s[..n]);
      assert Lower(s)[..n] == Lower(s[..n]);
    }
  }

  lemma {:induction false} LeadingZeros(zeros: string, s: string)
    requires IsHex(s) && forall i :: 0 <= i < |zeros| ==> zeros[i] == '0'
    ensures IsHex(zeros + s) && Value(zeros + s) == Value(s)
    decreases |zeros| + |s|
  {
    var all := zeros + s;
    if s != [] {
      var n := |s| - 1;
      LeadingZeros(zeros, s[..n]);
      assert all[..|all| - 1] == zeros + s[..n];
    } else if zeros != [] {
      LeadingZeros(zeros[..|zeros| - 1], []);
      assert all[..|all| - 1] == zeros[..|zeros| - 1] + [];
    }
  }

  lemma HexAfterZeros(zeros: string, s: string)
    requires forall i :: 0 <= i < |zeros| ==> zeros[i] == '0'
    ensures IsHex(zeros + s) <==> IsHex(s)
  {
    var all := zeros + s;
    assert forall i :: 0 <= i < |s| ==> s[i] == all[|zeros| + i];
    assert forall i :: 0 <= i < |all| ==> all[i] == if i < |zeros| then '0' else s[i - |zeros|];
  }

  lemma NothingIsZero()
    ensures IsHex([]) && Value([]) == 0
  {
  }

  lemma ZeroDigit()
    ensures IsHex("0") && Value("0") == 0
  {
    assert "0"[..0] == [];
  }

  lemma NormalizeValue(s: string)
    ensures IsHex(Normalize(s)) <==> IsHex(s)
    ensures IsHex(s) ==> Value(Normalize(s)) == Value(s)
  {
    hide TrimZeros, Lower, LowerChar, DigitValue, IsHexDigit, IsHex;
    var lower := Lower(s);
    var trimmed := TrimZeros(lower);
    var zeros := lower[..|lower| - |trimmed|];
    LowerValue(s);
    assert lower == zeros + trimmed;
    HexAfterZeros(zeros, trimmed);
    NothingIsZero();
    if IsHex(trimmed) {
      LeadingZeros(zeros, trimmed);
    }
    ZeroDigit();
  }

  /** In normal form: lower case, and no leading zero unless it is the only digit. */
  predicate Normal(s: string) {
    && IsHex(s) && s != [] && (s[0] == '0' ==> |s| == 1)
    && forall i :: 0 <= i < |s| ==> !('A' <= s[i] <= 'Z')
  }

  lemma NormalizeIsNormal(s: string)
    requires IsHex(s)
    ensures Normal(Normalize(s))
  {
    hide TrimZeros, Lower, DigitValue, Value;
    NormalizeValue(s);
    var lower := Lower(s);
    var trimmed := TrimZeros(lower);
    assert forall i :: 0 <= i < |trimmed| ==> trimmed[i] == lower[|lower| - |trimmed| + i];
  }

  lemma {:induction false} NormalIsPositive(s: string)
    requires Normal(s) && s[0] != '0'
    ensures Value(s) > 0
  {
    if |s| > 1 {
      NormalIsPositive(s[..|s| - 1]);
    } else {
      assert s[..0] == [];
    }
  }

  lemma SameDivision(v: nat, d: nat, w: nat, e: nat)
    requires d < 16 && e < 16 && 16 * v + d == 16 * w + e
    ensures v == w && d == e
  {
  }

  lemma SameDigit(c: char, d: char)
    requires IsHexDigit(c) && IsHexDigit(d) && !('A' <= c <= 'Z') && !('A' <= d <= 'Z')
    requires DigitValue(c) == DigitValue(d)
    ensures c == d
  {
  }

  /** Two normal forms of the same number are the same string. */
  lemma {:induction false} NormalUnique(a: string, b: string)
    requires Normal(a) && Normal(b) && Value(a) == Value(b)
    ensures a == b
  {
    var m, n := |a| - 1, |b| - 1;
    SameDivision(Value(a[..m]), DigitValue(a[m]), Value(b[..n]), DigitValue(b[n]));
    hide Value, DigitValue;
    SameDigit(a[m], b[n]);
    NothingIsZero();
    if m > 0 && n > 0 {
      NormalUnique(a[..m], b[..n]);
    } else if m > 0 {
      NormalIsPositive(a[..m]);
    } else if n > 0 {
      NormalIsPositive(b[..n]);
    }
    assert a == a[..m] + [a[m]] && b == b[..n] + [b[n]];
  }

  /** Same normal form exactly when same number: any length, case and leading zeros. */
  lemma NormalFormDecidesEquality(a: string, b: string)
    requires IsHex(a) && IsHex(b)
    ensures Normalize(a) == Normalize(b) <==> Value(a) == Value(b)
  {
    NormalizeValue(a);
    NormalizeValue(b);
    NormalizeIsNormal(a);
    NormalizeIsNormal(b);
    if Value(a) == Value(b) {
      NormalUnique(Normalize(a), Normalize(b));
    }
  }

  lemma AlreadyNormal(t: string)
    requires t == [] || t[0] != '0'
    requires forall i :: 0 <= i < |t| ==> LowerChar(t[i]) == t[i]
    ensures TrimZeros(Lower(t)) == t
  {
    assert Lower(t) == t;
  }

  lemma NormalizeIdempotent(s: string)
    ensures Normalize(Normalize(s)) == Normalize(s)
  {
    hide TrimZeros, Lower;
    var lower := Lower(s);
    var t := TrimZeros(lower);
    assert forall i :: 0 <= i < |t| ==> t[i] == lower[|lower| - |t| + i];
    AlreadyNormal(t);
    ZeroIsNormal();
  }

  lemma ZeroIsNormal()
    ensures Normalize("0") == "0"
  {
    hide TrimZeros, Lower;
    var lower := Lower("0");
    assert lower[0] == '0';
  }

  // ---- The revocation list ----

  function HexDigit(n: nat): char
    requires n < 16
  {
    "0123456789abcdef"[n]
  }

  function HexEncode(bytes: seq<byte>): string {
    if bytes == [] then []
    else
      var last := bytes[|bytes| - 1];
      HexEncode(bytes[..|bytes| - 1]) + [HexDigit(last / 16), HexDigit(last % 16)]
  }

  lemma HexDigitValue(n: nat)
    requires n < 16
    ensures IsHexDigit(HexDigit(n)) && DigitValue(HexDigit(n)) == n
  {
  }

  lemma TwoDigits(init: string, hi: char, lo: char)
    requires IsHex(init) && IsHexDigit(hi) && IsHexDigit(lo)
    ensures var s := init + [hi, lo];
            IsHex(s) && Value(s) == 256 * Value(init) + 16 * DigitValue(hi) + DigitValue(lo)
  {
    hide DigitValue, IsHexDigit;
    var s := init + [hi, lo];
    assert s[..|s| - 1] == init + [hi] && (init + [hi])[..|init|] == init;
  }

  lemma {:induction false} HexEncodeValue(bytes: seq<byte>)
    ensures IsHex(HexEncode(bytes)) && Value(HexEncode(bytes)) == Number(bytes)
  {
    hide DigitValue, IsHexDigit, HexDigit;
    if bytes != [] {
      var n := |bytes| - 1;
      var init, hi, lo := HexEncode(bytes[..n]), HexDigit(bytes[n] / 16), HexDigit(bytes[n] % 16);
      HexEncodeValue(bytes[..n]);
      HexDigitValue(bytes[n] / 16);
      HexDigitValue(bytes[n] % 16);
      var s := HexEncode(bytes);
      assert s == init + [hi, lo];
      TwoDigits(init, hi, lo);
    }
  }

  /** The serials of a parsed list, hex encoded one after the other. */
  method ExtractSerials(serials: seq<seq<byte>>) returns (hex: seq<string>)
    ensures |hex| == |serials| && forall i :: 0 <= i < |hex| ==> hex[i] == HexEncode(serials[i])
  {
    hex := [];
    for n := 0 to |serials|
      invariant |hex| == n && forall i :: 0 <= i < n ==> hex[i] == HexEncode(serials[i])
    {
      hex := hex + [HexEncode(serials[n])];
    }
  }

  /** True exactly when the query is hexadecimal and some listed serial is the same number. */
  method IsRevoked(serials: seq<seq<byte>>, query: string) returns (revoked: bool)
    ensures revoked <==> IsHex(query) && exists i :: 0 <= i < |serials| && Number(serials[i]) == Value(query)
  {
    hide Value, Normalize, HexEncode, Number;
    var hex := ExtractSerials(serials);
    var normalized := Normalize(query);
    forall i | 0 <= i < |serials|
      ensures Normalize(hex[i]) == normalized <==> IsHex(query) && Number(serials[i]) == Value(query)
    {
      HexEncodeValue(serials[i]);
      NormalizeValue(query);
      NormalizeValue(hex[i]);
      if IsHex(query) {
        NormalFormDecidesEquality(hex[i], query);
      }
    }
    revoked := exists i :: 0 <= i < |hex| && Normalize(hex[i]) == normalized;
  }
}
