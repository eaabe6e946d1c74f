/**
 * Header-size discovery for a `.pos` file. The file is a text header followed by
 * the binary payload; the header's second line holds, in decimal, the number of
 * bytes the header occupies. The file's bytes are given as a sequence.
 */
module HeaderLines {
  import opened EmaErrors
  import opened PyText

  const NL: byte := 10

  /** Length of the first line of `s`: up to and including the first newline,
      or all of `s` when it has none. */
  function LineLength(s: seq<byte>): (n: nat)
    requires |s| > 0
    ensures 0 < n <= |s|
  {
    if s[0] == NL || |s| == 1 then 1 else 1 + LineLength(s[1..])
  }

  /** The first line stops at the first newline and nowhere earlier. */
  lemma {:induction false} LineLengthStopsAtNewline(s: seq<byte>)
    requires |s| > 0
    ensures forall i :: 0 <= i < LineLength(s) - 1 ==> s[i] != NL
    ensures s[LineLength(s) - 1] == NL || LineLength(s) == |s|
  {
    if !(s[0] == NL || |s| == 1) {
      LineLengthStopsAtNewline(s[1..]);
    }
  }

  /** A line as binary-mode file iteration yields it: non-empty, with a newline
      at most at its end. */
  predicate IsLine(l: seq<byte>)
  {
    |l| > 0 && forall i :: 0 <= i < |l| - 1 ==> l[i] != NL
  }

  predicate EndsWithNewline(l: seq<byte>)
  {
    |l| > 0 && l[|l| - 1] == NL
  }

  function Concat(ls: seq<seq<byte>>): seq<byte>
  {
    if ls == [] then [] else ls[0] + Concat(ls[1..])
  }

  /** The lines `for line in file` produces for a file opened in binary mode. */
  function Lines(s: seq<byte>): (ls: seq<seq<byte>>)
    ensures |ls| <= |s|
    ensures ls == [] <==> s == []
    decreases |s|
  {
    if s == [] then []
    else
      var n := LineLength(s);
      [s[..n]] + Lines(s[n..])
  }

  /** The lines cut the file into pieces that together give back every byte in
      order; each is non-empty, holds a newline only at its end, and every line
      but the last ends with one. */
  lemma {:induction false} LinesPartition(s: seq<byte>)
    ensures Concat(Lines(s)) == s
    ensures forall k :: 0 <= k < |Lines(s)| ==> IsLine(Lines(s)[k])
    ensures forall k :: 0 <= k < |Lines(s)| - 1 ==> EndsWithNewline(Lines(s)[k])
    decreases |s|
  {
    if s != [] {
      var n := LineLength(s);
      var rest := s[n..];
      LineLengthStopsAtNewline(s);
      LinesPartition(rest);
      LinesStep(s, n, rest);
      var ls := Lines(s);
      assert ls[0] == s[..n] && ls[1..] == Lines(rest);
      assert Concat(ls) == s by {
        assert s == s[..n] + rest;
      }
      forall k | 0 <= k < |ls| ensures IsLine(ls[k])
      {
        if k > 0 { assert ls[k] == Lines(rest)[k - 1]; }
      }
      forall k | 0 <= k < |ls| - 1 ensures EndsWithNewline(ls[k])
      {
        if k > 0 { assert ls[k] == Lines(rest)[k - 1]; }
        else { assert |ls| > 1; assert n < |s|; }
      }
    }
  }

  /** The header size a header line declares: the line decoded as Latin-1,
      stripped of newlines, read by int(). Only `int()` can fail here, and it
      accepts no line without a decimal digit. */
  function SizeFromLine(line: seq<byte>): (r: Result<int>)
    ensures r.Failure? ==> r.error.NotAnInteger?
    ensures r.Success? ==> exists i :: 0 <= i < |line| && IsDigitByte(line[i])
  {
    var text := Trim(Latin1Decode(line), IsNewline);
    LineNonNumeric(line);
    match ParseInt(text)
    case Some(n) => Success(n)
    case None => Failure(NotAnInteger(text))
  }

  predicate IsDigitByte(b: byte) { '0' as byte <= b <= '9' as byte }

  /** The header size the file declares, read from its second line: a file of
      fewer than two lines leaves it unbound, and otherwise only `int()` can
      reject the line. */
  function HeaderSize(file: seq<byte>): (r: Result<int>)
    ensures r == Failure(HeaderSizeUnbound) <==> |Lines(file)| < 2
    ensures r.Failure? ==> r.error == HeaderSizeUnbound || r.error.NotAnInteger?
    ensures r.Success? ==> exists i :: 0 <= i < |Lines(file)[1]| && IsDigitByte(Lines(file)[1][i])
  {
    var ls := Lines(file);
    if |ls| < 2 then Failure(HeaderSizeUnbound) else SizeFromLine(ls[1])
  }

  /** Reads lines one at a time, counting them, and stops at the second;
      `unread` is the part of the file the iteration has not reached yet. */
  method GetHeaderSize(file: seq<byte>) returns (r: Result<int>)
    ensures r == HeaderSize(file)
  {
    var counter := 0;
    var unread := file;
    while unread != []
      invariant 0 <= counter <= 1 && counter <= |Lines(file)|
      invariant Lines(unread) == Lines(file)[counter..]
      decreases |unread|
    {
      var len := LineLength(unread);
      var line := unread[..len];
      SkipLine(Lines(file), counter, line, Lines(unread[len..]));
      counter := counter + 1;
      if counter == 2 {
        return SizeFromLine(line);
      }
      unread := unread[len..];
    }
    return Failure(HeaderSizeUnbound);
  }

  /** Taking the next line off the remaining lines. */
  lemma SkipLine(ls: seq<seq<byte>>, counter: nat, line: seq<byte>, rest: seq<seq<byte>>)
    requires counter <= |ls| && ls[counter..] == [line] + rest
    ensures counter < |ls| && ls[counter] == line && ls[counter + 1..] == rest
  {
    assert ls[counter..][0] == line;
    assert ls[counter + 1..] == ls[counter..][1..];
  }

  /** Splitting after a complete line: the lines of `a + b` are those of `a`
      followed by those of `b`. */
  lemma {:induction false} LinesAppend(a: seq<byte>, b: seq<byte>)
    requires a == [] || a[|a| - 1] == NL
    ensures Lines(a + b) == Lines(a) + Lines(b)
    decreases |a|
  {
    if a == [] {
      assert a + b == b;
    } else {
      var n := LineLength(a);
      var tail := a[n..];
      var first := a[..n];
      assert Lines(a + b) == [first] + (Lines(tail) + Lines(b)) by {
        assert tail == [] || tail[|tail| - 1] == NL;
        LineLengthPrefix(a, b);
        assert (a + b)[..n] == first;
        assert (a + b)[n..] == tail + b;
        LinesStep(a + b, n, tail + b);
        LinesAppend(tail, b);
      }
      assert Lines(a) + Lines(b) == [first] + (Lines(tail) + Lines(b)) by {
        LinesStep(a, n, tail);
        ConsAppend(first, Lines(tail), Lines(b));
      }
    }
  }

  /** Prepending an element and then appending is appending and then prepending. */
  lemma ConsAppend<T>(x: T, u: seq<T>, v: seq<T>)
    ensures ([x] + u) + v == [x] + (u + v)
  {
  }

  /** One unfolding of `Lines`, with the first line's length and the rest named. */
  lemma LinesStep(s: seq<byte>, n: nat, rest: seq<byte>)
    requires s != [] && n == LineLength(s) && rest == s[n..]
    ensures Lines(s) == [s[..n]] + Lines(rest)
  {
  }

  lemma {:induction false} LineLengthPrefix(a: seq<byte>, b: seq<byte>)
    requires |a| > 0 && a[|a| - 1] == NL
    ensures LineLength(a + b) == LineLength(a)
    decreases |a|
  {
    if a[0] != NL {
      assert |a| > 1;
      assert (a + b)[1..] == a[1..] + b;
      LineLengthPrefix(a[1..], b);
    }
  }

  /** A newline-free run followed by a newline is exactly one line. */
  lemma OneLine(l: seq<byte>)
    requires forall i :: 0 <= i < |l| ==> l[i] != NL
    ensures Lines(l + [NL]) == [l + [NL]]
  {
    var s := l + [NL];
    assert forall i :: 0 <= i < |l| ==> s[i] == l[i];
    LineLengthStopsAtNewline(s);
    assert LineLength(s) == |s|;
    assert s[|s|..] == [];
    assert s[..|s|] == s;
  }

  /** Only the bytes up to the end of the second line are consulted: whatever
      follows a two-line header (the rest of the header and the payload) cannot
      change the header size. */
  lemma HeaderSizeIgnoresRest(head: seq<byte>, rest: seq<byte>)
    requires |Lines(head)| == 2
    requires head[|head| - 1] == NL
    ensures HeaderSize(head + rest) == HeaderSize(head)
  {
    LinesAppend(head, rest);
  }

  /** The bytes `str(n)` encodes to in Latin-1. */
  function IntBytes(n: int): (bs: seq<byte>)
    ensures forall i :: 0 <= i < |bs| ==> bs[i] != NL
    ensures Latin1Decode(bs) == IntText(n)
  {
    var t := IntText(n);
    assert forall i :: 0 <= i < |t| ==> t[i] == '-' || IsDigit(t[i]);
    Latin1Encode(t)
  }

  /** Two newline-terminated lines in front of anything are its first two lines. */
  lemma TwoLines(first: seq<byte>, second: seq<byte>, rest: seq<byte>)
    requires forall i :: 0 <= i < |first| ==> first[i] != NL
    requires forall i :: 0 <= i < |second| ==> second[i] != NL
    ensures Lines(first + [NL] + second + [NL] + rest) == [first + [NL], second + [NL]] + Lines(rest)
  {
    var l1 := first + [NL];
    var l2 := second + [NL];
    OneLine(first);
    OneLine(second);
    LinesAppend(l1, l2);
    LinesAppend(l1 + l2, rest);
    assert first + [NL] + second + [NL] + rest == (l1 + l2) + rest;
  }

  /** The line holding `str(n)` strips back to `str(n)`. */
  lemma IntLineText(n: int)
    ensures Trim(Latin1Decode(IntBytes(n) + [NL]), IsNewline) == IntText(n)
  {
    var t := IntText(n);
    assert Latin1Decode(IntBytes(n) + [NL]) == t + "\n";
    assert t[0] == '-' || IsDigit(t[0]);
    assert IsDigit(t[|t| - 1]);
    TrimPadded([], t, "\n", IsNewline);
    assert [] + t + "\n" == t + "\n";
  }

  /** A header whose second line is `str(n)` declares the size `n`, whatever its
      first line and whatever follows. */
  lemma HeaderSizeRoundTrip(first: seq<byte>, n: int, rest: seq<byte>)
    requires forall i :: 0 <= i < |first| ==> first[i] != NL
    ensures HeaderSize(first + [NL] + IntBytes(n) + [NL] + rest) == Success(n)
  {
    TwoLines(first, IntBytes(n), rest);
    IntLineText(n);
    ParseIntText(n);
  }

  /** A second line without any decimal digit makes int() fail. */
  lemma HeaderSizeNonNumeric(file: seq<byte>)
    requires |Lines(file)| >= 2
    requires forall i :: 0 <= i < |Lines(file)[1]| ==> !IsDigitByte(Lines(file)[1][i])
    ensures HeaderSize(file).Failure? && HeaderSize(file).error.NotAnInteger?
  {
    LineNonNumeric(Lines(file)[1]);
  }

  /** A header line without any decimal digit is not a size. */
  lemma LineNonNumeric(line: seq<byte>)
    ensures (forall i :: 0 <= i < |line| ==> !IsDigitByte(line[i])) ==>
      ParseInt(Trim(Latin1Decode(line), IsNewline)) == None
  {
    if forall i :: 0 <= i < |line| ==> !IsDigitByte(line[i]) {
      var decoded := Latin1Decode(line);
      assert forall i :: 0 <= i < |decoded| ==> !IsDigit(decoded[i]);
      TrimNoDigit(decoded, IsNewline);
      ParseIntNeedsDigit(Trim(decoded, IsNewline));
    }
  }
}
