/** Python string operations the scraper relies on: `split`, `strip`,
    clamped slicing and `int()` on digit strings. */
module Text {
  import opened Results

  /** Python's `str.isspace()` for one character: the characters that
      `str.strip()` with no argument removes. */
  predicate IsSpace(c: char) {
    || ('\t' <= c <= '\r')
    || ('\U{1c}' <= c <= ' ')
    || c == '\U{85}' || c == '\U{a0}' || c == '\U{1680}'
    || ('\U{2000}' <= c <= '\U{200a}')
    || c == '\U{2028}' || c == '\U{2029}' || c == '\U{202f}'
    || c == '\U{205f}' || c == '\U{3000}'
  }

  /** `s.lstrip()` */
  function StripStart(s: string): (r: string)
    ensures |r| <= |s| && r == s[|s| - |r|..]
    ensures forall i :: 0 <= i < |s| - |r| ==> IsSpace(s[i])
    ensures |r| > 0 ==> !IsSpace(r[0])
  {
    if |s| > 0 && IsSpace(s[0]) then StripStart(s[1..]) else s
  }

  /** `s.rstrip()` */
  function StripEnd(s: string): (r: string)
    ensures |r| <= |s| && r == s[..|r|]
    ensures forall i :: |r| <= i < |s| ==> IsSpace(s[i])
    ensures |r| > 0 ==> !IsSpace(r[|r| - 1])
  {
    if |s| > 0 && IsSpace(s[|s| - 1]) then StripEnd(s[..|s| - 1]) else s
  }

  /** `s.strip()` */
  function Strip(s: string): string {
    StripEnd(StripStart(s))
  }

  /** Stripping leaves a string alone when neither end is whitespace. */
  lemma StripUnchanged(s: string)
    requires |s| > 0 && !IsSpace(s[0]) && !IsSpace(s[|s| - 1])
    ensures Strip(s) == s
  {
  }

  /** `s.split(c)[0]`: the text before the first `c`, or all of `s`. */
  function BeforeFirst(s: string, c: char): (r: string)
    ensures |r| <= |s| && r == s[..|r|]
    ensures c !in r
    ensures |r| < |s| ==> s[|r|] == c
  {
    if |s| == 0 || s[0] == c then "" else [s[0]] + BeforeFirst(s[1..], c)
  }

  /** Anything after the first separator is ignored by `BeforeFirst`. */
  lemma {:induction false} BeforeFirstIgnoresRest(head: string, c: char, rest: string)
    requires c !in head
    ensures BeforeFirst(head + [c] + rest, c) == head
  {
    if |head| > 0 {
      assert (head + [c] + rest)[1..] == head[1..] + [c] + rest;
      BeforeFirstIgnoresRest(head[1..], c, rest);
    } else {
      assert (head + [c] + rest)[0] == c;
    }
  }

  /** Python's `sep.join(parts)` for a one-character separator. */
  function JoinOn(parts: seq<string>, c: char): string
    decreases |parts|
  {
    if |parts| == 0 then ""
    else if |parts| == 1 then parts[0]
    else parts[0] + [c] + JoinOn(parts[1..], c)
  }

  /** Python's `s.split(c)`: always at least one piece, and no piece holds
      `c`. */
  function Split(s: string, c: char): (r: seq<string>)
    ensures |r| >= 1
    ensures forall i :: 0 <= i < |r| ==> c !in r[i]
    decreases |s|
  {
    var head := BeforeFirst(s, c);
    if |head| == |s| then [s]
    else [head] + Split(s[|head| + 1..], c)
  }

  /** Joining the pieces of a split gives the text back. */
  lemma {:induction false} JoinSplit(s: string, c: char)
    ensures JoinOn(Split(s, c), c) == s
    decreases |s|
  {
    var head := BeforeFirst(s, c);
    if |head| < |s| {
      var rest := s[|head| + 1..];
      var tail := Split(rest, c);
      assert JoinOn(Split(s, c), c) == head + [c] + JoinOn(tail, c) by {
        assert Split(s, c) == [head] + tail;
        assert ([head] + tail)[1..] == tail;
      }
      JoinSplit(rest, c);
      assert s == head + [c] + rest by {
        assert s == s[..|head|] + [s[|head|]] + s[|head| + 1..];
      }
    }
  }

  /** Splitting a joined sequence of separator-free pieces gives the pieces back. */
  lemma {:induction false} SplitJoin(parts: seq<string>, c: char)
    requires |parts| >= 1
    requires forall i :: 0 <= i < |parts| ==> c !in parts[i]
    ensures Split(JoinOn(parts, c), c) == parts
    decreases |parts|
  {
    if |parts| == 1 {
      assert BeforeFirst(parts[0], c) == parts[0];
    } else {
      var rest := JoinOn(parts[1..], c);
      var s := parts[0] + [c] + rest;
      assert JoinOn(parts, c) == s;
      BeforeFirstIgnoresRest(parts[0], c, rest);
      assert BeforeFirst(s, c) == parts[0];
      assert s[|parts[0]| + 1..] == rest;
      SplitJoin(parts[1..], c);
      assert Split(s, c) == [parts[0]] + Split(rest, c);
      assert [parts[0]] + parts[1..] == parts;
    }
  }

  /** Joining one more piece adds a separator and the piece. */
  lemma {:induction false} JoinOnSnoc(parts: seq<string>, x: string, c: char)
    requires |parts| >= 1
    ensures JoinOn(parts + [x], c) == JoinOn(parts, c) + [c] + x
    decreases |parts|
  {
    if |parts| > 1 {
      assert (parts + [x])[1..] == parts[1..] + [x];
      JoinOnSnoc(parts[1..], x, c);
    }
  }

  /** A joined text ends with its last piece. */
  lemma JoinOnEndsWithLast(parts: seq<string>, c: char)
    requires |parts| >= 1
    ensures var j := JoinOn(parts, c);
            var last := parts[|parts| - 1];
            |last| <= |j| && j[|j| - |last|..] == last
  {
    if |parts| > 1 {
      var init := parts[..|parts| - 1];
      assert parts == init + [parts[|parts| - 1]];
      JoinOnSnoc(init, parts[|parts| - 1], c);
    }
  }

  /** Appending a line and a separator to text whose last piece is empty. */
  lemma JoinAppendLine(init: seq<string>, line: string, c: char)
    ensures JoinOn(init + [line, ""], c) == JoinOn(init + [""], c) + line + [c]
  {
    if |init| == 0 {
      assert init + [line, ""] == [line, ""];
      assert init + [""] == [""];
    } else {
      var j := JoinOn(init, c);
      JoinOnSnoc(init, "", c);
      JoinOnSnoc(init, line, c);
      JoinOnSnoc(init + [line], "", c);
      assert init + [line, ""] == (init + [line]) + [""];
      assert JoinOn(init + [line, ""], c) == j + [c] + line + [c];
    }
  }

  /** Text that is empty or ends in the separator splits into pieces the
      last of which is empty. */
  lemma SplitEndsEmpty(t: string, c: char)
    requires t == "" || t[|t| - 1] == c
    ensures var p := Split(t, c); p[|p| - 1] == ""
  {
    var p := Split(t, c);
    var last := p[|p| - 1];
    JoinSplit(t, c);
    JoinOnEndsWithLast(p, c);
    assert |last| == 0 by {
      if |t| > 0 {
        assert c !in last;
        assert t[|t| - |last|..] == last;
      }
    }
  }

  /** Universal newlines, as text-mode reading applies them: `\r\n` and a
      lone `\r` each become `\n`. */
  function Newlines(s: string): (r: string)
    ensures '\r' !in r
    decreases |s|
  {
    if |s| == 0 then ""
    else if s[0] == '\r' then "\n" + Newlines(if |s| > 1 && s[1] == '\n' then s[2..] else s[1..])
    else [s[0]] + Newlines(s[1..])
  }

  /** Text without a carriage return is read unchanged. */
  lemma {:induction false} NewlinesFree(s: string)
    requires '\r' !in s
    ensures Newlines(s) == s
    decreases |s|
  {
    if |s| > 0 {
      assert s[0] != '\r';
      assert '\r' !in s[1..] by {
        assert forall i :: 0 <= i < |s[1..]| ==> s[1..][i] == s[i + 1];
      }
      NewlinesFree(s[1..]);
    }
  }

  /** Translation works piece by piece when the first piece does not end
      in the `\r` of a `\r\n` pair split between the two. */
  lemma {:induction false} NewlinesAppend(a: string, b: string)
    requires |a| == 0 || a[|a| - 1] != '\r'
    ensures Newlines(a + b) == Newlines(a) + Newlines(b)
    decreases |a|
  {
    var s := a + b;
    if |a| == 0 {
      assert s == b;
    } else if a[0] == '\r' {
      assert |a| > 1;
      assert s[0] == '\r' && s[1] == a[1];
      if a[1] == '\n' {
        assert s[2..] == a[2..] + b;
        NewlinesAppend(a[2..], b);
      } else {
        assert s[1..] == a[1..] + b;
        NewlinesAppend(a[1..], b);
      }
    } else {
      assert s[0] == a[0] && s[1..] == a[1..] + b;
      NewlinesAppend(a[1..], b);
    }
  }

  /** Text ending in `\n` still ends in `\n` once translated. */
  lemma {:induction false} NewlinesKeepsEnd(s: string)
    requires |s| > 0 && s[|s| - 1] == '\n'
    ensures var r := Newlines(s); |r| > 0 && r[|r| - 1] == '\n'
    decreases |s|
  {
    if s[0] == '\r' {
      var rest := if |s| > 1 && s[1] == '\n' then s[2..] else s[1..];
      if |rest| > 0 {
        assert rest[|rest| - 1] == s[|s| - 1];
        NewlinesKeepsEnd(rest);
      }
    } else if |s| > 1 {
      assert s[1..][|s| - 2] == s[|s| - 1];
      NewlinesKeepsEnd(s[1..]);
    }
  }

  /** Terminated lines free of `\r` hold no `\r`. */
  lemma {:induction false} TerminatedFree(lines: seq<string>, c: char)
    requires c != '\r'
    requires forall i :: 0 <= i < |lines| ==> '\r' !in lines[i]
    ensures '\r' !in Terminated(lines, c)
    decreases |lines|
  {
    if |lines| > 0 {
      TerminatedFree(lines[..|lines| - 1], c);
    }
  }

  /** Each line followed by the terminator `c`, concatenated. */
  function Terminated(lines: seq<string>, c: char): string
    decreases |lines|
  {
    if |lines| == 0 then ""
    else Terminated(lines[..|lines| - 1], c) + lines[|lines| - 1] + [c]
  }

  /** Appending terminated, separator-free lines to text that is empty or
      ends in the separator: the text's final empty piece gives way to the
      lines, and a new empty piece ends the split. */
  lemma SplitAppendLines(t: string, lines: seq<string>, c: char)
    requires t == "" || t[|t| - 1] == c
    requires forall i :: 0 <= i < |lines| ==> c !in lines[i]
    ensures var prev := Split(t, c);
            var next := Split(t + Terminated(lines, c), c);
            && prev[|prev| - 1] == ""
            && next == prev[..|prev| - 1] + lines + [""]
  {
    var prev := Split(t, c);
    var keep := prev[..|prev| - 1];
    SplitEndsEmpty(t, c);
    assert JoinOn(keep + [""], c) == t by {
      JoinSplit(t, c);
      DropLast(prev, "");
    }
    JoinTerminated(keep, lines, c);
    PiecesFree(prev, lines, c);
    SplitJoin(keep + lines + [""], c);
  }

  /** A sequence whose last element is `x` is its other elements, then `x`. */
  lemma DropLast<T>(s: seq<T>, x: T)
    requires |s| > 0 && s[|s| - 1] == x
    ensures s[..|s| - 1] + [x] == s
  {
  }

  /** The pieces of a split, all but the last, then separator-free lines
      and an empty piece, are all separator-free. */
  lemma PiecesFree(prev: seq<string>, lines: seq<string>, c: char)
    requires |prev| > 0
    requires forall i :: 0 <= i < |prev| ==> c !in prev[i]
    requires forall i :: 0 <= i < |lines| ==> c !in lines[i]
    ensures var pieces := prev[..|prev| - 1] + lines + [""];
            |pieces| >= 1 && forall i :: 0 <= i < |pieces| ==> c !in pieces[i]
  {
    var keep := prev[..|prev| - 1];
    var pieces := keep + lines + [""];
    forall i | 0 <= i < |pieces| ensures c !in pieces[i] {
      if i < |keep| {
        assert pieces[i] == prev[i];
      } else if i < |keep| + |lines| {
        assert pieces[i] == lines[i - |keep|];
      }
    }
  }

  /** Joining kept pieces, lines and a final empty piece is joining the
      kept pieces and the empty piece, then the lines each terminated. */
  lemma {:induction false} JoinTerminated(keep: seq<string>, lines: seq<string>, c: char)
    ensures JoinOn(keep + lines + [""], c) == JoinOn(keep + [""], c) + Terminated(lines, c)
    decreases |lines|
  {
    if |lines| == 0 {
      assert keep + lines + [""] == keep + [""];
    } else {
      var init := lines[..|lines| - 1];
      var line := lines[|lines| - 1];
      var before := JoinOn(keep + init + [""], c);
      assert before == JoinOn(keep + [""], c) + Terminated(init, c) by {
        JoinTerminated(keep, init, c);
      }
      assert JoinOn(keep + lines + [""], c) == before + line + [c] by {
        JoinAppendLine(keep + init, line, c);
        LinesShape(keep, lines, "");
      }
      assert Terminated(lines, c) == Terminated(init, c) + line + [c];
    }
  }

  /** Where the last line sits among kept pieces, lines and an empty piece. */
  lemma LinesShape<T>(keep: seq<T>, lines: seq<T>, e: T)
    requires |lines| > 0
    ensures keep + lines + [e] == (keep + lines[..|lines| - 1]) + [lines[|lines| - 1], e]
    ensures keep + lines[..|lines| - 1] + [e] == (keep + lines[..|lines| - 1]) + [e]
  {
    assert lines == lines[..|lines| - 1] + [lines[|lines| - 1]];
  }

  /** Python's `s[i:j]` for non-negative bounds: out-of-range bounds clamp. */
  function Slice(s: string, i: nat, j: nat): string {
    var lo := if i <= |s| then i else |s|;
    var hi := if j <= |s| then j else |s|;
    if lo <= hi then s[lo..hi] else ""
  }

  /** Python's `s[i:]` for a non-negative bound. */
  function Drop(s: string, i: nat): string {
    if i <= |s| then s[i..] else ""
  }

  predicate IsDigit(c: char) {
    '0' <= c <= '9'
  }

  predicate AllDigits(s: string) {
    forall i :: 0 <= i < |s| ==> IsDigit(s[i])
  }

  /** The decimal value of a string of ASCII digits. */
  function DigitsValue(s: string): nat
    requires AllDigits(s)
  {
    if |s| == 0 then 0
    else DigitsValue(s[..|s| - 1]) * 10 + (s[|s| - 1] as int - '0' as int)
  }

  /** Python's `int(s)` restricted to ASCII digit strings: `None` stands for
      the ValueError raised on an empty or non-numeric string. */
  function ParseInt(s: string): (r: Option<nat>)
    ensures r.Some? <==> |s| > 0 && AllDigits(s)
  {
    if |s| > 0 && AllDigits(s) then Some(DigitsValue(s)) else None
  }

  /** The value of one digit character. */
  function DigitOf(d: char): nat
    requires IsDigit(d)
  {
    d as int - '0' as int
  }

  /** Reading one more digit: a lone digit is its own value, a number read
      so far is shifted one decimal place and the digit added, and text
      that already failed keeps failing. Together these fix the value of
      `int(s)` on every input. */
  lemma ParseIntSnoc(s: string, d: char)
    requires IsDigit(d)
    ensures |s| == 0 ==> ParseInt(s + [d]) == Some(DigitOf(d))
    ensures ParseInt(s).Some? ==> ParseInt(s + [d]) == Some(10 * ParseInt(s).value + DigitOf(d))
    ensures |s| > 0 && ParseInt(s).None? ==> ParseInt(s + [d]).None?
  {
    var t := s + [d];
    assert t[..|t| - 1] == s;
    if |s| == 0 {
      assert DigitsValue(t) == DigitsValue([]) * 10 + DigitOf(d);
    } else if !AllDigits(s) {
      var i :| 0 <= i < |s| && !IsDigit(s[i]);
      assert t[i] == s[i];
    }
  }

  /** `str(n)`: the decimal digits of `n`, with no leading zero. */
  function Decimal(n: nat): (r: string)
    ensures |r| > 0 && AllDigits(r)
  {
    var last := ('0' as int + n % 10) as char;
    if n < 10 then [last] else Decimal(n / 10) + [last]
  }

  /** `k` zero characters. */
  function Zeros(k: nat): (r: string)
    ensures |r| == k && AllDigits(r)
  {
    seq(k, i => '0')
  }

  /** `int()` reads back any decimal rendering of a number, whatever run of
      leading zeros precedes it (`int("017") == 17`). */
  lemma {:induction false} ParseIntDecimal(n: nat, k: nat)
    ensures ParseInt(Zeros(k) + Decimal(n)) == Some(n)
    decreases n
  {
    var last := ('0' as int + n % 10) as char;
    assert DigitOf(last) == n % 10;
    if n < 10 {
      assert Decimal(n) == [last];
      LeadingZeros(k, last);
    } else {
      var prefix := Zeros(k) + Decimal(n / 10);
      ParseIntDecimal(n / 10, k);
      assert Zeros(k) + Decimal(n) == prefix + [last];
      ParseIntSnoc(prefix, last);
      assert 10 * (n / 10) + n % 10 == n;
    }
  }

  /** Leading zeros do not change the value of a digit. */
  lemma LeadingZeros(k: nat, d: char)
    requires IsDigit(d)
    ensures ParseInt(Zeros(k) + [d]) == Some(DigitOf(d))
  {
    ZerosValue(k);
    ParseIntSnoc(Zeros(k), d);
    if k > 0 {
      assert ParseInt(Zeros(k)) == Some(0);
    }
  }

  /** A run of zeros has the value zero. */
  lemma {:induction false} ZerosValue(k: nat)
    ensures DigitsValue(Zeros(k)) == 0
  {
    if k > 0 {
      var z := Zeros(k);
      assert z[..k - 1] == Zeros(k - 1);
      ZerosValue(k - 1);
    }
  }

  /** The two-digit, zero-padded decimal text of `n`. */
  function TwoDigits(n: nat): (r: string)
    requires n < 100
    ensures |r| == 2 && AllDigits(r)
  {
    [('0' as int + n / 10) as char, ('0' as int + n % 10) as char]
  }

  /** Reading a two-digit rendering back gives the number. */
  lemma TwoDigitsValue(n: nat)
    requires n < 100
    ensures DigitsValue(TwoDigits(n)) == n
  {
    var t := TwoDigits(n);
    assert t[..1][..0] == [];
    assert DigitsValue(t[..1]) == n / 10;
  }
}
