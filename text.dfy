/** The few Python string operations the script relies on: str.strip(),
    int() on a string, str() of an integer and str.rjust(). */
module Text {
  import opened Wrappers

  /** The two whitespace sets the script meets, restricted to ASCII.
      str.strip() removes tab, line feed, vertical tab, form feed, carriage
      return, the separators 0x1C-0x1F and space; int() skips the same
      characters except the separators. */
  datatype Blanks = StripBlanks | IntBlanks

  predicate IsBlank(c: char, b: Blanks) {
    9 <= c as int <= 13 || c == ' ' || (b == StripBlanks && 28 <= c as int <= 31)
  }

  predicate AllBlank(s: string, b: Blanks) {
    forall i :: 0 <= i < |s| ==> IsBlank(s[i], b)
  }

  /** Drops the leading blanks (str.lstrip() for StripBlanks). */
  function TrimLeft(s: string, b: Blanks): string {
    if |s| > 0 && IsBlank(s[0], b) then TrimLeft(s[1..], b) else s
  }

  /** Drops the trailing blanks (str.rstrip() for StripBlanks). */
  function TrimRight(s: string, b: Blanks): string {
    if |s| > 0 && IsBlank(s[|s| - 1], b) then TrimRight(s[..|s| - 1], b) else s
  }

  /** What is left once the blanks are removed at both ends. */
  function Trim(s: string, b: Blanks): string {
    TrimRight(TrimLeft(s, b), b)
  }

  /** str.strip() */
  function Strip(s: string): string {
    Trim(s, StripBlanks)
  }

  lemma {:induction false} TrimLeftIsSuffix(s: string, b: Blanks)
    ensures var r := TrimLeft(s, b);
      |r| <= |s| && r == s[|s| - |r|..] && AllBlank(s[..|s| - |r|], b) && (r == [] || !IsBlank(r[0], b))
  {
    if |s| > 0 && IsBlank(s[0], b) {
      TrimLeftIsSuffix(s[1..], b);
      var r := TrimLeft(s[1..], b);
      assert s[1..][..|s| - 1 - |r|] == s[1..|s| - |r|];
    }
  }

  lemma {:induction false} TrimRightIsPrefix(s: string, b: Blanks)
    ensures var r := TrimRight(s, b);
      |r| <= |s| && r == s[..|r|] && AllBlank(s[|r|..], b) && (r == [] || !IsBlank(r[|r| - 1], b))
  {
    if |s| > 0 && IsBlank(s[|s| - 1], b) {
      TrimRightIsPrefix(s[..|s| - 1], b);
      var r := TrimRight(s[..|s| - 1], b);
      assert s[..|s| - 1][|r|..] + [s[|s| - 1]] == s[|r|..];
    }
  }

  /** Trim(s, b) is the slice of s between a blank prefix and a blank
      suffix, and neither begins nor ends with a blank itself. */
  lemma TrimIsTrimmedSlice(s: string, b: Blanks)
    ensures var r := Trim(s, b);
      && (exists i :: 0 <= i <= |s| - |r| && r == s[i..i + |r|] && AllBlank(s[..i], b) && AllBlank(s[i + |r|..], b))
      && (r == [] || (!IsBlank(r[0], b) && !IsBlank(r[|r| - 1], b)))
  {
    var left := TrimLeft(s, b);
    TrimLeftIsSuffix(s, b);
    TrimRightIsPrefix(left, b);
    var r := TrimRight(left, b);
    var i := |s| - |left|;
    assert left == s[i..];
    assert r == left[..|r|];
    assert r == s[i..i + |r|];
    assert s[i + |r|..] == left[|r|..];
    assert AllBlank(s[..i], b) && AllBlank(s[i + |r|..], b);
  }

  /** str.strip() is the slice of s between whitespace runs, with no
      whitespace at either of its ends. */
  lemma StripIsTrimmedSlice(s: string)
    ensures var r := Strip(s);
      && (exists i :: 0 <= i <= |s| - |r| && r == s[i..i + |r|] && AllBlank(s[..i], StripBlanks) && AllBlank(s[i + |r|..], StripBlanks))
      && (r == [] || (!IsBlank(r[0], StripBlanks) && !IsBlank(r[|r| - 1], StripBlanks)))
  {
    TrimIsTrimmedSlice(s, StripBlanks);
  }

  lemma {:induction false} TrimLeftPadded(pad: string, d: string, b: Blanks)
    requires AllBlank(pad, b)
    requires d == [] || !IsBlank(d[0], b)
    ensures TrimLeft(pad + d, b) == d
  {
    if pad != [] {
      assert (pad + d)[1..] == pad[1..] + d;
      TrimLeftPadded(pad[1..], d, b);
    }
  }

  /** Trimming blank padding off a word gives back the word. */
  lemma TrimPadded(pad: string, d: string, b: Blanks)
    requires AllBlank(pad, b)
    requires d != [] && !IsBlank(d[0], b) && !IsBlank(d[|d| - 1], b)
    ensures Trim(pad + d, b) == d
  {
    TrimLeftPadded(pad, d, b);
  }

  /** Stripping whitespace padding off a word gives back the word. */
  lemma StripPadded(pad: string, d: string)
    requires AllBlank(pad, StripBlanks)
    requires d != [] && !IsBlank(d[0], StripBlanks) && !IsBlank(d[|d| - 1], StripBlanks)
    ensures Strip(pad + d) == d
  {
    TrimPadded(pad, d, StripBlanks);
  }

  lemma {:induction false} TrimRightPadded(d: string, pad: string, b: Blanks)
    requires AllBlank(pad, b)
    requires d == [] || !IsBlank(d[|d| - 1], b)
    ensures TrimRight(d + pad, b) == d
  {
    if pad != [] {
      assert (d + pad)[..|d + pad| - 1] == d + pad[..|pad| - 1];
      TrimRightPadded(d, pad[..|pad| - 1], b);
    }
  }

  /** Stripping whitespace on both sides of a word gives back the word. */
  lemma StripSurrounded(pre: string, d: string, post: string)
    requires AllBlank(pre, StripBlanks) && AllBlank(post, StripBlanks)
    requires d != [] && !IsBlank(d[0], StripBlanks) && !IsBlank(d[|d| - 1], StripBlanks)
    ensures Strip(pre + d + post) == d
  {
    assert pre + d + post == pre + (d + post);
    TrimLeftPadded(pre, d + post, StripBlanks);
    TrimRightPadded(d, post, StripBlanks);
  }

  predicate IsDigit(c: char) {
    '0' <= c <= '9'
  }

  predicate AllDigits(s: string) {
    forall i :: 0 <= i < |s| ==> IsDigit(s[i])
  }

  /** The value of a string of decimal digits, most significant digit first. */
  function DigitsValue(s: string): nat
    requires AllDigits(s)
  {
    if s == [] then 0 else DigitsValue(s[..|s| - 1]) * 10 + (s[|s| - 1] as int - '0' as int)
  }

  /** str() of a non-negative integer: its decimal digits, without leading zeros. */
  function NatToDecimal(n: nat): (r: string)
    ensures |r| > 0 && AllDigits(r)
    ensures DigitsValue(r) == n
    ensures r[0] != '0' || r == "0"
  {
    var last := [('0' as int + n % 10) as char];
    if n < 10 then last
    else
      var r := NatToDecimal(n / 10) + last;
      assert r[..|r| - 1] == NatToDecimal(n / 10);
      r
  }

  /** str() of an integer: a minus sign for negative values, then the digits. */
  function IntToString(n: int): (r: string)
    ensures r != [] && (r[0] == '-' || IsDigit(r[0])) && IsDigit(r[|r| - 1])
  {
    if n < 0 then "-" + NatToDecimal(-n) else NatToDecimal(n)
  }

  /** int() on a string: surrounding whitespace (int()'s own set), an
      optional sign directly before the digits, and at least one decimal
      digit; None where Python raises ValueError. */
  function ParseInt(s: string): (r: Option<int>)
    ensures var t := Trim(s, IntBlanks);
      r.Some? <==> (t != [] && AllDigits(t)) || (|t| > 1 && (t[0] == '-' || t[0] == '+') && AllDigits(t[1..]))
    ensures r.Some? && r.value < 0 ==> Trim(s, IntBlanks)[0] == '-'
  {
    var t := Trim(s, IntBlanks);
    if |t| > 1 && (t[0] == '-' || t[0] == '+') && AllDigits(t[1..]) then
      var v: int := DigitsValue(t[1..]);
      Some(if t[0] == '-' then -v else v)
    else if |t| > 0 && AllDigits(t) then
      Some(DigitsValue(t))
    else
      None
  }

  /** str.rjust(width): s padded on the left with spaces up to width characters. */
  function RightJustify(s: string, width: nat): string {
    if |s| < width then seq(width - |s|, _ => ' ') + s else s
  }

  /** The justified string is s behind a run of spaces, width long unless s
      is longer already. */
  lemma RightJustifyShape(s: string, width: nat)
    ensures var r := RightJustify(s, width);
      && |r| == (if |s| < width then width else |s|)
      && r[|r| - |s|..] == s && forall i :: 0 <= i < |r| - |s| ==> r[i] == ' '
  {
  }

  /** A run of spaces is blank for both whitespace sets. */
  lemma SpacesAreBlank(pad: string, b: Blanks)
    requires forall i :: 0 <= i < |pad| ==> pad[i] == ' '
    ensures AllBlank(pad, b)
  {
  }

  /** int() reads back what str() wrote, whatever int()-whitespace precedes
      it. */
  lemma ParseIntOfPadded(pad: string, n: int)
    requires AllBlank(pad, IntBlanks)
    ensures ParseInt(pad + IntToString(n)) == Some(n)
  {
    var d := IntToString(n);
    TrimPadded(pad, d, IntBlanks);
    assert Trim(pad + d, IntBlanks) == d;
    if n < 0 {
      var digits := NatToDecimal(-n);
      assert d == "-" + digits && d[1..] == digits;
      assert |d| > 1 && d[0] == '-' && AllDigits(d[1..]);
      assert DigitsValue(d[1..]) == -n;
    } else {
      assert d == NatToDecimal(n);
      assert IsDigit(d[0]) && AllDigits(d);
      assert DigitsValue(d) == n;
    }
  }

  /** int() reads back a right-justified str() of any integer. */
  lemma ParseIntOfJustified(n: int, width: nat)
    ensures ParseInt(RightJustify(IntToString(n), width)) == Some(n)
  {
    var r := RightJustify(IntToString(n), width);
    RightJustifyShape(IntToString(n), width);
    var k := |r| - |IntToString(n)|;
    assert r == r[..k] + IntToString(n);
    SpacesAreBlank(r[..k], IntBlanks);
    ParseIntOfPadded(r[..k], n);
  }

  /** The two whitespace sets differ: str.strip() removes an information
      separator that int() rejects. */
  lemma IntRejectsSeparator()
    ensures Strip([28 as char, '5']) == "5"
    ensures ParseInt([28 as char, '5']) == None
  {
    var s := [28 as char, '5'];
    assert s[1..] == "5";
    assert TrimLeft(s, StripBlanks) == "5";
    assert TrimLeft(s, IntBlanks) == s;
    assert TrimRight(s, IntBlanks) == s;
    assert !IsDigit(s[0]);
  }
}
