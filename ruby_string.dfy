/**
 * The Ruby String methods the application relies on, restricted to ASCII:
 * strip, upcase, downcase, rjust, to_i(16) and the "%X" conversion of format.
 */
module RubyString {
  import opened Sequences

  /** A character String#strip removes: null, \t, \n, \v, \f, \r and space. */
  predicate IsStripSpace(c: char) {
    c == '\0' || ('\t' <= c <= '\r') || c == ' '
  }

  /** A character of [[:space:]] in ASCII, which is what blank? looks for (null is not one). */
  predicate IsSpace(c: char) {
    ('\t' <= c <= '\r') || c == ' '
  }

  predicate IsHexDigit(c: char) {
    ('0' <= c <= '9') || ('A' <= c <= 'F') || ('a' <= c <= 'f')
  }

  predicate IsUpperHexDigit(c: char) {
    ('0' <= c <= '9') || ('A' <= c <= 'F')
  }

  predicate AllHex(s: string) {
    forall i :: 0 <= i < |s| ==> IsHexDigit(s[i])
  }

  predicate AllUpperHex(s: string) {
    forall i :: 0 <= i < |s| ==> IsUpperHexDigit(s[i])
  }

  // ---------------------------------------------------------------- strip

  /** String#lstrip: drops the leading run of whitespace. */
  function LStrip(s: string): (r: string)
    ensures |r| <= |s| && r == s[|s| - |r|..]
    ensures forall i :: 0 <= i < |s| - |r| ==> IsStripSpace(s[i])
    ensures r != [] ==> !IsStripSpace(r[0])
    decreases |s|
  {
    if s != [] && IsStripSpace(s[0]) then LStrip(s[1..]) else s
  }

  /** String#rstrip: drops the trailing run of whitespace. */
  function RStrip(s: string): (r: string)
    ensures |r| <= |s| && r == s[..|r|]
    ensures forall i :: |r| <= i < |s| ==> IsStripSpace(s[i])
    ensures r != [] ==> !IsStripSpace(r[|r| - 1])
    decreases |s|
  {
    if s != [] && IsStripSpace(s[|s| - 1]) then RStrip(s[..|s| - 1]) else s
  }

  /** String#strip. */
  function Strip(s: string): (r: string)
    ensures r == [] <==> forall i :: 0 <= i < |s| ==> IsStripSpace(s[i])
    ensures r != [] ==> !IsStripSpace(r[0]) && !IsStripSpace(r[|r| - 1])
    ensures (forall i :: 0 <= i < |s| ==> !IsStripSpace(s[i])) ==> r == s
    ensures Trims(s, r)
  {
    var l := LStrip(s);
    var r := RStrip(l);
    StripSides(s, l, r);
    r
  }

  /** What lstrip and then rstrip leave of s. */
  lemma StripSides(s: string, l: string, r: string)
    requires |l| <= |s| && l == s[|s| - |l|..] && forall k :: 0 <= k < |s| - |l| ==> IsStripSpace(s[k])
    requires l != [] ==> !IsStripSpace(l[0])
    requires |r| <= |l| && r == l[..|r|] && forall k :: |r| <= k < |l| ==> IsStripSpace(l[k])
    requires r != [] ==> !IsStripSpace(r[|r| - 1])
    ensures r == [] <==> forall i :: 0 <= i < |s| ==> IsStripSpace(s[i])
    ensures r != [] ==> !IsStripSpace(r[0]) && !IsStripSpace(r[|r| - 1])
    ensures (forall i :: 0 <= i < |s| ==> !IsStripSpace(s[i])) ==> r == s
    ensures Trims(s, r)
  {
    TrimsSlice(s, l, r);
    StripSidesBlank(s, l, r);
    StripSidesKeep(s, l, r);
  }
  lemma StripSidesBlank(s: string, l: string, r: string)
    requires |l| <= |s| && l == s[|s| - |l|..] && forall k :: 0 <= k < |s| - |l| ==> IsStripSpace(s[k])
    requires l != [] ==> !IsStripSpace(l[0])
    requires |r| <= |l| && r == l[..|r|] && forall k :: |r| <= k < |l| ==> IsStripSpace(l[k])
    requires r != [] ==> !IsStripSpace(r[|r| - 1])
    ensures r == [] <==> forall i :: 0 <= i < |s| ==> IsStripSpace(s[i])
  {
    assert r == [] ==> l == [];
  }
  lemma StripSidesKeep(s: string, l: string, r: string)
    requires |l| <= |s| && l == s[|s| - |l|..] && forall k :: 0 <= k < |s| - |l| ==> IsStripSpace(s[k])
    requires l != [] ==> !IsStripSpace(l[0])
    requires |r| <= |l| && r == l[..|r|] && forall k :: |r| <= k < |l| ==> IsStripSpace(l[k])
    requires r != [] ==> !IsStripSpace(r[|r| - 1])
    ensures (forall i :: 0 <= i < |s| ==> !IsStripSpace(s[i])) ==> r == s
  {
    if s != [] && forall i :: 0 <= i < |s| ==> !IsStripSpace(s[i]) {
      assert !IsStripSpace(s[0]);
      assert l == s;
      assert !IsStripSpace(l[|l| - 1]);
    }
  }

  /** A string is `r` with only whitespace before and after it. */
  predicate Trims(s: string, r: string) {
    exists i, j :: (0 <= i <= j <= |s| && r == s[i..j]
      && (forall k :: 0 <= k < i ==> IsStripSpace(s[k]))
      && (forall k :: j <= k < |s| ==> IsStripSpace(s[k])))
  }

  /** Dropping leading whitespace and then trailing whitespace leaves a middle slice. */
  lemma TrimsSlice(s: string, l: string, r: string)
    requires |l| <= |s| && l == s[|s| - |l|..] && forall k :: 0 <= k < |s| - |l| ==> IsStripSpace(s[k])
    requires |r| <= |l| && r == l[..|r|] && forall k :: |r| <= k < |l| ==> IsStripSpace(l[k])
    ensures Trims(s, r)
  {
    var i := |s| - |l|;
    var j := i + |r|;
    assert r == s[i..j] by {
      forall n | 0 <= n < |r| ensures r[n] == s[i + n] {
        assert r[n] == l[n];
      }
    }
    forall k | j <= k < |s| ensures IsStripSpace(s[k]) {
      assert s[k] == l[k - i];
    }
  }

  /** Whitespace added around a string never survives strip. */
  lemma StripPadding(pre: string, s: string, post: string)
    requires forall k :: 0 <= k < |pre| ==> IsStripSpace(pre[k])
    requires forall k :: 0 <= k < |post| ==> IsStripSpace(post[k])
    ensures Strip(pre + s + post) == Strip(s)
  {
    LStripSpaces(pre, s + post);
    assert pre + s + post == pre + (s + post);
    if LStrip(s) != [] {
      LStripAppend(s, post);
      RStripSpaces(LStrip(s), post);
    } else {
      assert forall k :: 0 <= k < |s| ==> IsStripSpace(s[k]);
      assert LStrip(s + post) == [] by {
        var t := s + post;
        assert forall k :: 0 <= k < |t| ==> IsStripSpace(t[k]) by {
          forall k | 0 <= k < |t| ensures IsStripSpace(t[k]) {
            if k < |s| { assert t[k] == s[k]; } else { assert t[k] == post[k - |s|]; }
          }
        }
      }
    }
  }

  /** Leading whitespace is dropped by lstrip. */
  lemma {:induction false} LStripSpaces(pre: string, s: string)
    requires forall k :: 0 <= k < |pre| ==> IsStripSpace(pre[k])
    ensures LStrip(pre + s) == LStrip(s)
    decreases |pre|
  {
    ConcatParts(pre, s);
    if pre != [] {
      LStripSpaces(pre[1..], s);
    }
  }

  /** lstrip stops inside a string that holds something other than whitespace. */
  lemma {:induction false} LStripAppend(s: string, t: string)
    requires LStrip(s) != []
    ensures LStrip(s + t) == LStrip(s) + t
    decreases |s|
  {
    ConcatParts(s, t);
    if IsStripSpace(s[0]) {
      LStripAppend(s[1..], t);
    }
  }

  /** Trailing whitespace is dropped by rstrip. */
  lemma {:induction false} RStripSpaces(s: string, post: string)
    requires forall k :: 0 <= k < |post| ==> IsStripSpace(post[k])
    ensures RStrip(s + post) == RStrip(s)
    decreases |post|
  {
    if post == [] {
      assert s + post == s;
    } else {
      var t := s + post;
      assert t[..|t| - 1] == s + post[..|post| - 1];
      RStripSpaces(s, post[..|post| - 1]);
    }
  }

  // ---------------------------------------------------------------- case

  function UpcaseChar(c: char): char {
    if 'a' <= c <= 'z' then (c as int - 32) as char else c
  }

  function DowncaseChar(c: char): char {
    if 'A' <= c <= 'Z' then (c as int + 32) as char else c
  }

  /** String#upcase on ASCII letters: no lower-case letter is left, and nothing else changes. */
  function Upcase(s: string): (r: string)
    ensures |r| == |s|
    ensures forall i :: 0 <= i < |r| ==> !('a' <= r[i] <= 'z')
    ensures forall i :: 0 <= i < |s| && !('a' <= s[i] <= 'z') ==> r[i] == s[i]
    ensures forall i :: 0 <= i < |s| && 'a' <= s[i] <= 'z' ==> 'A' <= r[i] <= 'Z' && DowncaseChar(r[i]) == s[i]
  {
    seq(|s|, i requires 0 <= i < |s| => UpcaseChar(s[i]))
  }

  /** String#downcase on ASCII letters: no upper-case letter is left, and nothing else changes. */
  function Downcase(s: string): (r: string)
    ensures |r| == |s|
    ensures forall i :: 0 <= i < |r| ==> !('A' <= r[i] <= 'Z')
    ensures forall i :: 0 <= i < |s| && !('A' <= s[i] <= 'Z') ==> r[i] == s[i]
    ensures forall i :: 0 <= i < |s| && 'A' <= s[i] <= 'Z' ==> 'a' <= r[i] <= 'z' && UpcaseChar(r[i]) == s[i]
  {
    seq(|s|, i requires 0 <= i < |s| => DowncaseChar(s[i]))
  }

  // ---------------------------------------------------------------- rjust

  function Repeat(c: char, n: nat): (r: string)
    ensures |r| == n && forall i :: 0 <= i < n ==> r[i] == c
  {
    seq(n, _ => c)
  }

  /** String#rjust(width, pad) with a one-character pad. */
  function RJust(s: string, width: nat, pad: char): (r: string)
    ensures |r| == if |s| < width then width else |s|
    ensures r[|r| - |s|..] == s
    ensures forall i :: 0 <= i < |r| - |s| ==> r[i] == pad
  {
    if |s| < width then Repeat(pad, width - |s|) + s else s
  }

  // ---------------------------------------------------------------- hexadecimal

  function HexValue(c: char): (v: nat)
    requires IsHexDigit(c)
    ensures v < 16
  {
    if '0' <= c <= '9' then c as int - '0' as int
    else if 'A' <= c <= 'F' then c as int - 'A' as int + 10
    else c as int - 'a' as int + 10
  }

  /** The upper-case digit "%X" prints for a value below 16. */
  function HexChar(d: nat): (c: char)
    requires d < 16
    ensures IsUpperHexDigit(c) && HexValue(c) == d
  {
    if d < 10 then ('0' as int + d) as char else ('A' as int + d - 10) as char
  }

  /** The value of a string of hexadecimal digits; the empty string is 0. */
  function ParseHex(s: string): nat
    requires AllHex(s)
    decreases |s|
  {
    if s == [] then 0 else ParseHex(s[..|s| - 1]) * 16 + HexValue(s[|s| - 1])
  }

  /** The longest prefix of s made of hexadecimal digits. */
  function HexPrefix(s: string): (r: string)
    ensures AllHex(r) && r <= s
    ensures |r| < |s| ==> !IsHexDigit(s[|r|])
    decreases |s|
  {
    if s != [] && IsHexDigit(s[0]) then [s[0]] + HexPrefix(s[1..]) else []
  }

  /**
   * String#to_i(16): reading stops at the first character that is not a hexadecimal
   * digit, and the digits before it give the value; no digits give 0.
   */
  function ToI16(s: string): (n: nat)
    ensures forall k :: 0 <= k <= |s| && AllHex(s[..k]) && (k == |s| || !IsHexDigit(s[k])) ==> n == ParseHex(s[..k])
    ensures s == [] || !IsHexDigit(s[0]) ==> n == 0
  {
    HexPrefixIsLongest(s);
    ParseHex(HexPrefix(s))
  }

  /** The leading run of hexadecimal digits is the only prefix that is all digits and stops at a non-digit. */
  lemma HexPrefixIsLongest(s: string)
    ensures forall k :: 0 <= k <= |s| && AllHex(s[..k]) && (k == |s| || !IsHexDigit(s[k])) ==> s[..k] == HexPrefix(s)
  {
    forall k | 0 <= k <= |s| && AllHex(s[..k]) && (k == |s| || !IsHexDigit(s[k])) {
      HexPrefixAt(s, k);
    }
  }

  lemma {:induction false} HexPrefixAt(s: string, k: nat)
    requires k <= |s| && AllHex(s[..k]) && (k == |s| || !IsHexDigit(s[k]))
    ensures s[..k] == HexPrefix(s)
    decreases |s|
  {
    if k > 0 {
      assert s[..k][0] == s[0];
      var t := s[1..];
      assert t[..k - 1] == s[..k][1..];
      assert k - 1 < |t| ==> t[k - 1] == s[k];
      HexPrefixAt(t, k - 1);
      assert s[..k] == [s[0]] + t[..k - 1];
    }
  }

  /** The digits "%X" prints for n: upper case, no leading zero, "0" for zero. */
  function HexDigits(n: nat): (s: string)
    ensures |s| >= 1 && AllUpperHex(s) && AllHex(s)
    ensures ParseHex(s) == n
    ensures |s| > 1 ==> s[0] != '0'
    decreases n
  {
    if n < 16 then [HexChar(n)]
    else
      var p := HexDigits(n / 16);
      var s := p + [HexChar(n % 16)];
      assert s[..|s| - 1] == p;
      s
  }

  function Pow16(k: nat): (p: nat)
    ensures p >= 1
  {
    if k == 0 then 1 else 16 * Pow16(k - 1)
  }

  // ---------------------------------------------------------------- lemmas

  /** Fewer than k digits are needed for a value below 16^k. */
  lemma {:induction false} HexDigitsLength(n: nat, k: nat)
    requires 1 <= k && n < Pow16(k)
    ensures |HexDigits(n)| <= k
    decreases k
  {
    if n >= 16 {
      assert Pow16(1) == 16;
      assert n / 16 < Pow16(k - 1);
      HexDigitsLength(n / 16, k - 1);
    }
  }

  /** Leading zeros do not change the value of a hexadecimal string. */
  lemma {:induction false} ParseHexLeadingZeros(z: nat, s: string)
    requires AllHex(s)
    ensures AllHex(Repeat('0', z) + s)
    ensures ParseHex(Repeat('0', z) + s) == ParseHex(s)
    decreases |s|
  {
    var t := Repeat('0', z) + s;
    if s == [] {
      assert t == Repeat('0', z);
      ZerosParseToZero(z);
    } else {
      assert t[..|t| - 1] == Repeat('0', z) + s[..|s| - 1];
      ParseHexLeadingZeros(z, s[..|s| - 1]);
    }
  }

  lemma {:induction false} ZerosParseToZero(z: nat)
    ensures ParseHex(Repeat('0', z)) == 0
    decreases z
  {
    if z > 0 {
      assert Repeat('0', z)[..z - 1] == Repeat('0', z - 1);
      ZerosParseToZero(z - 1);
    }
  }

  /** Case does not matter to a hexadecimal value. */
  lemma {:induction false} ParseHexIgnoresCase(s: string)
    requires AllHex(s)
    ensures AllHex(Upcase(s)) && AllHex(Downcase(s))
    ensures ParseHex(Upcase(s)) == ParseHex(s) == ParseHex(Downcase(s))
    decreases |s|
  {
    if s != [] {
      var p := s[..|s| - 1];
      assert Upcase(s)[..|s| - 1] == Upcase(p);
      assert Downcase(s)[..|s| - 1] == Downcase(p);
      ParseHexIgnoresCase(p);
    }
  }

  /** to_i(16) reads the same value whatever the case of its argument. */
  lemma {:induction false} ToI16IgnoresCase(s: string)
    ensures ToI16(Upcase(s)) == ToI16(s) == ToI16(Downcase(s))
  {
    HexPrefixCase(s);
    ParseHexIgnoresCase(HexPrefix(s));
  }

  lemma HexPrefixCase(s: string)
    ensures HexPrefix(Upcase(s)) == Upcase(HexPrefix(s))
    ensures HexPrefix(Downcase(s)) == Downcase(HexPrefix(s))
  {
    HexPrefixUpcase(s);
    HexPrefixDowncase(s);
  }

  lemma {:induction false} HexPrefixUpcase(s: string)
    ensures HexPrefix(Upcase(s)) == Upcase(HexPrefix(s))
    decreases |s|
  {
    if s != [] {
      var u := Upcase(s);
      assert u[0] == UpcaseChar(s[0]) && u[1..] == Upcase(s[1..]);
      HexPrefixUpcase(s[1..]);
      if IsHexDigit(s[0]) {
        assert IsHexDigit(u[0]);
        UpcaseCons(s[0], HexPrefix(s[1..]));
      } else {
        assert !IsHexDigit(u[0]);
      }
    }
  }

  lemma {:induction false} HexPrefixDowncase(s: string)
    ensures HexPrefix(Downcase(s)) == Downcase(HexPrefix(s))
    decreases |s|
  {
    if s != [] {
      var d := Downcase(s);
      assert d[0] == DowncaseChar(s[0]) && d[1..] == Downcase(s[1..]);
      HexPrefixDowncase(s[1..]);
      if IsHexDigit(s[0]) {
        assert IsHexDigit(d[0]);
        DowncaseCons(s[0], HexPrefix(s[1..]));
      } else {
        assert !IsHexDigit(d[0]);
      }
    }
  }

  lemma UpcaseCons(c: char, rest: string)
    ensures Upcase([c] + rest) == [UpcaseChar(c)] + Upcase(rest)
  {
  }

  lemma DowncaseCons(c: char, rest: string)
    ensures Downcase([c] + rest) == [DowncaseChar(c)] + Downcase(rest)
  {
  }

  /** On a string of hexadecimal digits to_i(16) is the plain base-16 value. */
  lemma ToI16OfHex(s: string)
    ensures AllHex(s) ==> ToI16(s) == ParseHex(s)
  {
    if AllHex(s) {
      HexPrefixOfHex(s);
    }
  }

  lemma {:induction false} HexPrefixOfHex(s: string)
    requires AllHex(s)
    ensures HexPrefix(s) == s
    decreases |s|
  {
    if s != [] {
      HexPrefixOfHex(s[1..]);
    }
  }
}
