/** The pieces of Python's `str` and `int` that the bot's commands rely on:
    `str.split()`, `str.split(" ", 1)`, `str.startswith`, `str.strip`,
    `int(text)` and the `{n:+03}` format. */
module Text {
  import opened Wrappers

  /** `c.isspace()`: the characters CPython treats as white space. */
  predicate IsSpace(c: char) {
    || ('\t' <= c <= '\r')
    || ('\U{1C}' <= c <= ' ')
    || c == '\U{85}' || c == '\U{A0}' || c == '\U{1680}'
    || ('\U{2000}' <= c <= '\U{200A}')
    || c == '\U{2028}' || c == '\U{2029}' || c == '\U{202F}' || c == '\U{205F}' || c == '\U{3000}'
  }

  /** A token of `str.split()`: non-empty, without white space. */
  predicate IsWord(w: string) {
    |w| > 0 && forall i :: 0 <= i < |w| ==> !IsSpace(w[i])
  }

  predicate AllSpace(s: string) {
    forall i :: 0 <= i < |s| ==> IsSpace(s[i])
  }

  /** `sep.join(ws)` */
  function Join(ws: seq<string>, sep: string): string {
    if ws == [] then ""
    else if |ws| == 1 then ws[0]
    else ws[0] + sep + Join(ws[1..], sep)
  }

  /** `s.startswith(prefix)` */
  predicate StartsWith(s: string, prefix: string) {
    |prefix| <= |s| && s[..|prefix|] == prefix
  }

  /** Length of the run of non-space characters that starts `s`. */
  function WordLength(s: string): (n: nat)
    ensures n <= |s|
    ensures forall i :: 0 <= i < n ==> !IsSpace(s[i])
    ensures n < |s| ==> IsSpace(s[n])
  {
    if s == [] || IsSpace(s[0]) then 0 else 1 + WordLength(s[1..])
  }

  /** `s.split()`: the maximal runs of non-space characters, in order. */
  function SplitWs(s: string): (r: seq<string>)
    ensures forall i :: 0 <= i < |r| ==> IsWord(r[i])
    decreases |s|
  {
    if s == [] then []
    else if IsSpace(s[0]) then SplitWs(s[1..])
    else
      var n := WordLength(s);
      [s[..n]] + SplitWs(s[n..])
  }

  /** A single word splits into itself. */
  lemma SplitWsWord(w: string)
    requires IsWord(w)
    ensures SplitWs(w) == [w]
  {
    WordLengthOf(w, |w|);
    assert w[..|w|] == w && w[|w|..] == [];
  }

  /** A white-space character separates the tokens on its two sides. */
  lemma {:induction false} SplitWsAt(a: string, c: char, b: string)
    requires IsSpace(c)
    ensures SplitWs(a + [c] + b) == SplitWs(a) + SplitWs(b)
    decreases |a|
  {
    var s := a + [c] + b;
    if a == [] {
      assert s[1..] == b;
    } else if IsSpace(a[0]) {
      assert s[1..] == a[1..] + [c] + b;
      SplitWsAt(a[1..], c, b);
    } else {
      var n := WordLength(a);
      assert n > 0;
      assert forall i :: 0 <= i < n ==> s[i] == a[i];
      assert n < |s| && IsSpace(s[n]);
      WordLengthOf(s, n);
      assert s[..n] == a[..n];
      assert s[n..] == a[n..] + [c] + b;
      SplitWsAt(a[n..], c, b);
    }
  }

  /** WordLength is determined by where the first space is. */
  lemma WordLengthOf(s: string, n: nat)
    requires n <= |s|
    requires forall i :: 0 <= i < n ==> !IsSpace(s[i])
    requires n < |s| ==> IsSpace(s[n])
    ensures WordLength(s) == n
  {
  }

  /** `" ".join(ws).split() == ws` for words `ws`. */
  lemma {:induction false} SplitWsJoin(ws: seq<string>)
    requires forall i :: 0 <= i < |ws| ==> IsWord(ws[i])
    ensures SplitWs(Join(ws, " ")) == ws
  {
    if ws == [] {
    } else if |ws| == 1 {
      SplitWsWord(ws[0]);
    } else {
      SplitWsJoin(ws[1..]);
      assert Join(ws, " ") == ws[0] + [' '] + Join(ws[1..], " ");
      SplitWsAt(ws[0], ' ', Join(ws[1..], " "));
      SplitWsWord(ws[0]);
      assert ws == [ws[0]] + ws[1..];
    }
  }

  /** Index of the first occurrence of `c` in `s`, if any. */
  function FirstIndex(s: string, c: char): (r: Option<nat>)
    ensures r.Some? ==> r.value < |s| && s[r.value] == c && c !in s[..r.value]
    ensures r.None? <==> c !in s
  {
    if s == [] then None
    else if s[0] == c then Some(0)
    else
      var r := FirstIndex(s[1..], c);
      if r.None? then None
      else
        assert s[..r.value + 1] == [s[0]] + s[1..][..r.value];
        Some(r.value + 1)
  }

  /** `s.split(" ", 1)`: cut at the first single space, at most once. */
  function SplitOnce(s: string): (r: seq<string>)
    ensures 1 <= |r| <= 2
    ensures |r| == 2 <==> ' ' in s
    ensures ' ' !in r[0]
    ensures s == if |r| == 2 then r[0] + " " + r[1] else r[0]
  {
    match FirstIndex(s, ' ')
    case None => [s]
    case Some(i) =>
      assert s == s[..i] + " " + s[i + 1..];
      [s[..i], s[i + 1..]]
  }

  /** Length of the run of white space that starts `s`. */
  function LeadingSpace(s: string): (n: nat)
    ensures n <= |s|
    ensures forall i :: 0 <= i < n ==> IsSpace(s[i])
    ensures n < |s| ==> !IsSpace(s[n])
  {
    if s != [] && IsSpace(s[0]) then 1 + LeadingSpace(s[1..]) else 0
  }

  /** Length of the run of white space that ends `s`. */
  function TrailingSpace(s: string): (n: nat)
    ensures n <= |s|
    ensures forall i :: |s| - n <= i < |s| ==> IsSpace(s[i])
    ensures n < |s| ==> !IsSpace(s[|s| - n - 1])
  {
    if s != [] && IsSpace(s[|s| - 1]) then 1 + TrailingSpace(s[..|s| - 1]) else 0
  }

  /** `s.strip()`: what lies between the leading and the trailing white space. */
  function Strip(s: string): (r: string) {
    var a := LeadingSpace(s);
    if a == |s| then ""
    else
      s[a..|s| - TrailingSpace(s)]
  }

  /** Stripping keeps exactly the middle of `s`: what it drops is white space. */
  lemma StripParts(s: string) returns (lead: string, trail: string)
    ensures s == lead + Strip(s) + trail
    ensures AllSpace(lead) && AllSpace(trail)
    ensures Strip(s) != [] ==> !IsSpace(Strip(s)[0]) && !IsSpace(Strip(s)[|Strip(s)| - 1])
  {
    var a := LeadingSpace(s);
    if a == |s| {
      lead, trail := s, "";
      assert s == lead + Strip(s) + trail;
    } else {
      lead, trail := SliceThree(s, a, |s| - TrailingSpace(s));
    }
  }

  /** Cutting `s` at `a` and `b` gives three pieces that add up to `s`. */
  lemma SliceThree(s: string, a: nat, b: nat) returns (lead: string, trail: string)
    requires a < b <= |s|
    requires forall i :: 0 <= i < a ==> IsSpace(s[i])
    requires forall i :: b <= i < |s| ==> IsSpace(s[i])
    ensures lead == s[..a] && trail == s[b..]
    ensures s == lead + s[a..b] + trail
    ensures AllSpace(lead) && AllSpace(trail)
    ensures s[a..b][0] == s[a] && s[a..b][b - a - 1] == s[b - 1]
  {
    lead, trail := s[..a], s[b..];
    assert s[..a] + s[a..] == s;
    assert s[a..] == s[a..b] + trail;
    forall i | 0 <= i < |trail| ensures IsSpace(trail[i]) {
      assert trail[i] == s[b + i];
    }
  }

  lemma StripNoSpace(s: string)
    requires forall i :: 0 <= i < |s| ==> !IsSpace(s[i])
    ensures Strip(s) == s
  {
    if s != [] {
      assert !IsSpace(s[|s| - 1]);
      assert TrailingSpace(s) == 0;
    }
  }

  predicate IsDigit(c: char) {
    '0' <= c <= '9'
  }

  function DigitOf(c: char): nat {
    if IsDigit(c) then c as int - '0' as int else 0
  }

  function DigitChar(d: nat): (c: char)
    requires d < 10
    ensures IsDigit(c) && DigitOf(c) == d
  {
    ('0' as int + d) as char
  }

  /** The numeral part that `int()` accepts in base 10: digits, with single
      underscores allowed between two digits. Leading zeros are allowed. */
  predicate DecimalBody(b: string) {
    && |b| > 0
    && forall i :: 0 <= i < |b| && !IsDigit(b[i]) ==>
         b[i] == '_' && 0 < i < |b| - 1 && IsDigit(b[i + 1])
  }

  /** The characters of `b` other than underscores. */
  function Digits(b: string): (r: string)
    ensures (forall i :: 0 <= i < |b| ==> b[i] != '_') ==> r == b
  {
    if b == [] then [] else (if b[0] == '_' then [] else [b[0]]) + Digits(b[1..])
  }

  /** The number a string of decimal digits denotes. */
  function DigitsValue(ds: string): nat {
    if ds == [] then 0 else 10 * DigitsValue(ds[..|ds| - 1]) + DigitOf(ds[|ds| - 1])
  }

  /** `int(s)`, with `None` where Python raises `ValueError`. Only ASCII
      digits are recognised. */
  function ParseInt(s: string): Option<int> {
    var t := Strip(s);
    if t != [] && (t[0] == '+' || t[0] == '-') then
      if DecimalBody(t[1..]) then
        var n: int := DigitsValue(Digits(t[1..]));
        Some(if t[0] == '-' then -n else n)
      else None
    else if DecimalBody(t) then Some(DigitsValue(Digits(t)))
    else None
  }

  /** `str(n)` for a natural number: its shortest decimal numeral. */
  function Decimal(n: nat): (r: string)
    ensures |r| > 0 && forall i :: 0 <= i < |r| ==> IsDigit(r[i])
    ensures DigitsValue(r) == n
    ensures |r| > 1 ==> r[0] != '0'
  {
    if n < 10 then [DigitChar(n)]
    else
      var r := Decimal(n / 10) + [DigitChar(n % 10)];
      assert r[..|r| - 1] == Decimal(n / 10);
      r
  }

  /** `f"{o:+03}"`: a sign, then the magnitude zero-padded to two digits. */
  function FormatOffset(o: int): (r: string)
    ensures |r| >= 3
    ensures r[0] == if o < 0 then '-' else '+'
    ensures forall i :: 1 <= i < |r| ==> IsDigit(r[i])
    ensures DigitsValue(r[1..]) == if o < 0 then -o else o
  {
    var mag := Decimal(if o < 0 then -o else o);
    var r := [if o < 0 then '-' else '+'] + (if |mag| < 2 then "0" + mag else mag);
    assert r[1..] == if |mag| < 2 then "0" + mag else mag;
    LeadingZero(mag);
    r
  }

  /** A leading zero does not change the value of a numeral. */
  lemma {:induction false} LeadingZero(s: string)
    ensures DigitsValue("0" + s) == DigitsValue(s)
  {
    if s != [] {
      var z := "0" + s;
      assert z[..|z| - 1] == "0" + s[..|s| - 1];
      LeadingZero(s[..|s| - 1]);
    }
  }

  /** `int(str(n)) == n` */
  lemma ParseDecimal(n: nat)
    ensures ParseInt(Decimal(n)) == Some(n)
  {
    var r := Decimal(n);
    StripNoSpace(r);
    assert !(r[0] == '+' || r[0] == '-');
    assert DecimalBody(r);
    assert Digits(r) == r;
  }

  /** A sign followed by ASCII digits reads as the signed value of the digits. */
  lemma ParseSigned(r: string)
    requires |r| >= 2 && (r[0] == '+' || r[0] == '-')
    requires forall i :: 1 <= i < |r| ==> IsDigit(r[i])
    ensures var v: int := DigitsValue(r[1..]);
            ParseInt(r) == Some(if r[0] == '-' then -v else v)
  {
    assert forall i :: 0 <= i < |r| ==> !IsSpace(r[i]);
    StripNoSpace(r);
    var b := r[1..];
    assert forall i :: 0 <= i < |b| ==> IsDigit(b[i]) by {
      forall i | 0 <= i < |b| ensures IsDigit(b[i]) { assert b[i] == r[i + 1]; }
    }
    assert DecimalBody(b);
    assert Digits(b) == b;
  }

  /** `int(f"{o:+03}") == o`: the offset label reads back as the offset. */
  lemma ParseFormatOffset(o: int)
    ensures ParseInt(FormatOffset(o)) == Some(o)
  {
    ParseSigned(FormatOffset(o));
  }

  /** `int(s)` raises when `s` holds a character that can be neither white
      space, a sign, an underscore nor a digit. */
  lemma ParseRejects(s: string, i: nat)
    requires i < |s|
    requires !IsSpace(s[i]) && !IsDigit(s[i]) && s[i] !in "+-_"
    ensures ParseInt(s) == None
  {
    var lead, trail := StripParts(s);
    var t := Strip(s);
    assert |lead| <= i < |lead| + |t|;
    var j := i - |lead|;
    assert t[j] == s[i];
    if t != [] && (t[0] == '+' || t[0] == '-') {
      assert j > 0 && t[1..][j - 1] == s[i];
    }
  }
}
