/**
 * The few pieces of Python text handling the reader relies on: decoding bytes
 * as Latin-1, `str.strip(chars)`, and the base-10 `int(str)` conversion that
 * turns the second header line into a byte count.
 */
module PyText {
  import opened EmaErrors

  newtype byte = b: int | 0 <= b < 0x100

  /** `bytes.decode('latin-1')`: each byte becomes the character with the same code. */
  function Latin1Decode(bs: seq<byte>): (s: string)
    ensures |s| == |bs|
    ensures forall i :: 0 <= i < |bs| ==> s[i] as int == bs[i] as int
  {
    seq(|bs|, i requires 0 <= i < |bs| => bs[i] as int as char)
  }

  /** `str.encode('latin-1')` for text whose characters all lie below 256. */
  function Latin1Encode(s: string): (bs: seq<byte>)
    requires forall i :: 0 <= i < |s| ==> s[i] as int < 0x100
    ensures Latin1Decode(bs) == s
  {
    seq(|s|, i requires 0 <= i < |s| => s[i] as int as byte)
  }

  // ---------------------------------------------------------------------------
  // str.strip(chars)
  // ---------------------------------------------------------------------------

  /** Drops the leading characters selected by `drop`. */
  function TrimStart(s: string, drop: char -> bool): (r: string)
    ensures |r| <= |s| && r == s[|s| - |r|..]
    ensures r == [] || !drop(r[0])
    ensures forall i :: 0 <= i < |s| - |r| ==> drop(s[i])
  {
    if s != [] && drop(s[0]) then
      var r := TrimStart(s[1..], drop);
      assert s[1..][|s| - 1 - |r|..] == s[|s| - |r|..];
      assert forall i :: 1 <= i < |s| - |r| ==> s[i] == s[1..][i - 1];
      r
    else s
  }

  /** Drops the trailing characters selected by `drop`. */
  function TrimEnd(s: string, drop: char -> bool): (r: string)
    ensures |r| <= |s| && r == s[..|r|]
    ensures r == [] || !drop(r[|r| - 1])
    ensures forall i :: |r| <= i < |s| ==> drop(s[i])
  {
    if s != [] && drop(s[|s| - 1]) then TrimEnd(s[..|s| - 1], drop) else s
  }

  /** `str.strip`: removes selected characters from both ends, as CPython's do_strip does. */
  function Trim(s: string, drop: char -> bool): (r: string)
    ensures |r| <= |s|
    ensures r == [] || (!drop(r[0]) && !drop(r[|r| - 1]))
  {
    var mid := TrimStart(s, drop);
    var r := TrimEnd(mid, drop);
    assert r != [] ==> r[0] == mid[0];
    r
  }

  /** What stripping keeps is one contiguous run of the text, starting at `off`. */
  lemma TrimSlice(s: string, drop: char -> bool) returns (off: nat)
    ensures off + |Trim(s, drop)| <= |s|
    ensures Trim(s, drop) == s[off..off + |Trim(s, drop)|]
  {
    var mid := TrimStart(s, drop);
    off := |s| - |mid|;
    var t := TrimEnd(mid, drop);
    assert mid[..|t|] == s[off..off + |t|];
  }

  /** Leading dropped characters are skipped whatever follows them. */
  lemma {:induction false} TrimStartSkips(pre: string, s: string, drop: char -> bool)
    requires forall i :: 0 <= i < |pre| ==> drop(pre[i])
    ensures TrimStart(pre + s, drop) == TrimStart(s, drop)
  {
    if pre != [] {
      assert (pre + s)[0] == pre[0] && drop(pre[0]);
      assert (pre + s)[1..] == pre[1..] + s;
      TrimStartSkips(pre[1..], s, drop);
    } else {
      assert pre + s == s;
    }
  }

  /** Trailing dropped characters are skipped whatever precedes them. */
  lemma {:induction false} TrimEndSkips(s: string, post: string, drop: char -> bool)
    requires forall i :: 0 <= i < |post| ==> drop(post[i])
    ensures TrimEnd(s + post, drop) == TrimEnd(s, drop)
  {
    if post != [] {
      assert (s + post)[|s + post| - 1] == post[|post| - 1] && drop(post[|post| - 1]);
      assert (s + post)[..|s + post| - 1] == s + post[..|post| - 1];
      TrimEndSkips(s, post[..|post| - 1], drop);
    } else {
      assert s + post == s;
    }
  }

  /** Once a non-dropped character has been reached, what follows is kept. */
  lemma {:induction false} TrimStartAppend(s: string, post: string, drop: char -> bool)
    requires TrimStart(s, drop) != []
    ensures TrimStart(s + post, drop) == TrimStart(s, drop) + post
  {
    assert (s + post)[0] == s[0];
    if drop(s[0]) {
      assert (s + post)[1..] == s[1..] + post;
      TrimStartAppend(s[1..], post, drop);
    }
  }

  /** Stripping ignores any padding of dropped characters, whatever the text inside. */
  lemma TrimIgnoresPadding(pre: string, s: string, post: string, drop: char -> bool)
    requires forall i :: 0 <= i < |pre| ==> drop(pre[i])
    requires forall i :: 0 <= i < |post| ==> drop(post[i])
    ensures Trim(pre + s + post, drop) == Trim(s, drop)
  {
    assert pre + s + post == pre + (s + post);
    TrimStartSkips(pre, s + post, drop);
    var mid := TrimStart(s, drop);
    if mid != [] {
      TrimStartAppend(s, post, drop);
      TrimEndSkips(mid, post, drop);
    } else {
      assert forall i :: 0 <= i < |s| ==> drop(s[i]);
      TrimStartSkips(s, post, drop);
      TrimStartSkips(post, [], drop);
      assert post + [] == post;
    }
  }

  /** Trimming is exact: padding made only of dropped characters around a core
      that neither starts nor ends with one is removed, and nothing else. */
  lemma TrimPadded(pre: string, core: string, post: string, drop: char -> bool)
    requires forall i :: 0 <= i < |pre| ==> drop(pre[i])
    requires forall i :: 0 <= i < |post| ==> drop(post[i])
    requires core == [] || (!drop(core[0]) && !drop(core[|core| - 1]))
    ensures Trim(pre + core + post, drop) == core
  {
    assert pre + core + post == pre + (core + post);
    TrimStartSkips(pre, core + post, drop);
    if core == [] {
      assert core + post == [] + post;
      TrimStartSkips(post, [], drop);
      assert post + [] == post;
    } else {
      assert (core + post)[0] == core[0];
      assert TrimStart(core + post, drop) == core + post;
      TrimEndSkips(core, post, drop);
      assert TrimEnd(core, drop) == core;
    }
  }

  predicate IsNewline(c: char) { c == '\n' }

  // ---------------------------------------------------------------------------
  // int(str) in base 10
  // ---------------------------------------------------------------------------

  /** The characters int() skips around the number when the text was decoded as
      Latin-1: the ASCII whitespace bytes 9..13 and space, plus NEL and NBSP,
      which CPython first rewrites to a plain space. */
  predicate IsIntSpace(c: char)
  {
    c == ' ' || ('\t' <= c <= '\r') || c == '\U{85}' || c == '\U{A0}'
  }

  predicate IsDigit(c: char) { '0' <= c <= '9' }

  function DigitValue(c: char): (d: nat)
    requires IsDigit(c)
    ensures d < 10
  {
    c as int - '0' as int
  }

  function DigitChar(d: nat): (c: char)
    requires d < 10
    ensures IsDigit(c) && DigitValue(c) == d
  {
    (d + '0' as int) as char
  }

  /** The body int() accepts after the optional sign: decimal digits, with single
      underscores allowed between two digits. */
  predicate IsDigitLiteral(t: string)
  {
    && |t| > 0
    && IsDigit(t[0])
    && IsDigit(t[|t| - 1])
    && (forall i :: 0 <= i < |t| ==> IsDigit(t[i]) || t[i] == '_')
    && (forall i :: 0 <= i < |t| - 1 && t[i] == '_' ==> t[i + 1] != '_')
  }

  /** The digits of a literal with its underscores removed. */
  function DropUnderscores(t: string): (ds: string)
    ensures |ds| <= |t|
    ensures (forall i :: 0 <= i < |t| ==> t[i] != '_') ==> ds == t
  {
    if t == [] then []
    else if t[0] == '_' then DropUnderscores(t[1..])
    else [t[0]] + DropUnderscores(t[1..])
  }

  lemma DropUnderscoresDigits(t: string)
    requires forall i :: 0 <= i < |t| ==> IsDigit(t[i]) || t[i] == '_'
    ensures forall i :: 0 <= i < |DropUnderscores(t)| ==> IsDigit(DropUnderscores(t)[i])
  {
  }

  /** The number a string of decimal digits denotes, most significant digit first. */
  function DigitsValue(ds: string): nat
    requires forall i :: 0 <= i < |ds| ==> IsDigit(ds[i])
  {
    if ds == [] then 0 else DigitsValue(ds[..|ds| - 1]) * 10 + DigitValue(ds[|ds| - 1])
  }

  /** The value of a well-formed literal body. */
  function LiteralValue(t: string): nat
    requires IsDigitLiteral(t)
  {
    DropUnderscoresDigits(t);
    DigitsValue(DropUnderscores(t))
  }

  /** int() on text already stripped of surrounding spaces: an optional sign,
      then a literal body. */
  function ParseSigned(t: string): (r: Option<int>)
    ensures r.Some? ==> |t| > 0 && IsDigit(t[|t| - 1])
    ensures r.Some? && r.value < 0 ==> t[0] == '-'
  {
    if |t| > 0 && (t[0] == '+' || t[0] == '-') then
      if IsDigitLiteral(t[1..]) then
        var v: int := LiteralValue(t[1..]);
        Some(if t[0] == '-' then -v else v)
      else None
    else if IsDigitLiteral(t) then Some(LiteralValue(t))
    else None
  }

  /** `int(s)` for a str `s`: None where Python raises ValueError. */
  function ParseInt(s: string): (r: Option<int>)
    ensures r.Some? ==> var t := Trim(s, IsIntSpace); |t| > 0 && IsDigit(t[|t| - 1])
    ensures r.Some? && r.value < 0 ==> Trim(s, IsIntSpace)[0] == '-'
  {
    ParseSigned(Trim(s, IsIntSpace))
  }

  // ---------------------------------------------------------------------------
  // str(int), the text int() is meant to invert
  // ---------------------------------------------------------------------------

  /** Decimal text of a natural number, without leading zeros. */
  function NatText(n: nat): (s: string)
    ensures |s| > 0
    ensures forall i :: 0 <= i < |s| ==> IsDigit(s[i])
  {
    if n < 10 then [DigitChar(n)] else NatText(n / 10) + [DigitChar(n % 10)]
  }

  /** `str(n)` for an int. */
  function IntText(n: int): string
  {
    if n < 0 then "-" + NatText(-n) else NatText(n)
  }

  lemma {:induction false} NatTextValue(n: nat)
    ensures DigitsValue(NatText(n)) == n
  {
    var s := NatText(n);
    if n >= 10 {
      NatTextValue(n / 10);
      assert s[..|s| - 1] == NatText(n / 10);
    }
  }

  /** The decimal text of a natural number is a literal int() reads back. */
  lemma NatTextLiteral(n: nat)
    ensures IsDigitLiteral(NatText(n)) && LiteralValue(NatText(n)) == n
  {
    NatTextValue(n);
  }

  /** Text that neither starts nor ends with a space is left alone by the strip. */
  lemma TrimUnpadded(s: string, drop: char -> bool)
    requires s == [] || (!drop(s[0]) && !drop(s[|s| - 1]))
    ensures Trim(s, drop) == s
  {
    TrimPadded([], s, [], drop);
    assert [] + s + [] == s;
  }

  /** Round trip: int(str(n)) == n for every integer. */
  lemma ParseIntText(n: int)
    ensures ParseInt(IntText(n)) == Some(n)
  {
    var s := IntText(n);
    var digits := NatText(if n < 0 then -n else n);
    NatTextLiteral(if n < 0 then -n else n);
    assert s[|s| - 1] == digits[|digits| - 1];
    TrimUnpadded(s, IsIntSpace);
    if n < 0 {
      assert s[1..] == digits;
    }
  }

  /** Spaces around the number do not change what int() returns. */
  lemma ParseIntIgnoresSpaces(pre: string, s: string, post: string)
    requires forall i :: 0 <= i < |pre| ==> IsIntSpace(pre[i])
    requires forall i :: 0 <= i < |post| ==> IsIntSpace(post[i])
    ensures ParseInt(pre + s + post) == ParseInt(s)
  {
    TrimIgnoresPadding(pre, s, post, IsIntSpace);
  }

  /** Stripping cannot bring in a digit the text did not have. */
  lemma TrimNoDigit(s: string, drop: char -> bool)
    requires forall i :: 0 <= i < |s| ==> !IsDigit(s[i])
    ensures forall i :: 0 <= i < |Trim(s, drop)| ==> !IsDigit(Trim(s, drop)[i])
  {
    var off := TrimSlice(s, drop);
    var t := Trim(s, drop);
    forall i | 0 <= i < |t| ensures !IsDigit(t[i]) {
      assert t[i] == s[off + i];
    }
  }

  /** Text with no decimal digit at all ("abc", an empty line) is rejected. */
  lemma ParseIntNeedsDigit(s: string)
    requires forall i :: 0 <= i < |s| ==> !IsDigit(s[i])
    ensures ParseInt(s) == None
  {
    TrimNoDigit(s, IsIntSpace);
    var t := Trim(s, IsIntSpace);
    if |t| > 0 {
      assert !IsDigit(t[0]);
      if |t| > 1 { assert t[1..][0] == t[1] && !IsDigit(t[1]); }
    }
  }
}
