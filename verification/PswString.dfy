/**
  pswrap's strings: how many bytes one stands for, and the C initializers that are written for them.
 */
module PswString {
  predicate IsOctal(c: char) {
    '0' <= c <= '7'
  }

  /** How the scanner leaves strings: a backslash is doubled, or begins an octal byte of three digits. */
  predicate WellFormed(s: string) {
    if s == "" then true
    else if s[0] != '\\' then s[0] != '\0' && WellFormed(s[1..])
    else if |s| > 1 && s[1] == '\\' then WellFormed(s[2..])
    else |s| > 3 && IsOctal(s[1]) && IsOctal(s[2]) && IsOctal(s[3]) && WellFormed(s[4..])
  }

  /**
    What may follow a backslash if no more than the string is read: another, or three characters of any kind.
    The names that the scanner lets through need not be well-formed, and those that are not within are read on
    past their end.
   */
  predicate Within(s: string) {
    if s == "" then true
    else if s[0] != '\\' then s[0] != '\0' && Within(s[1..])
    else if |s| > 1 && s[1] == '\\' then Within(s[2..])
    else |s| > 3 && s[1] != '\0' && s[2] != '\0' && s[3] != '\0' && Within(s[4..])
  }

  /** A walk over s as the source takes it, from c: it comes to the NUL behind the end, and not past it. */
  predicate StopsAtEnd(s: string, c: nat)
    decreases |s| - c
  {
    c == |s| || (c < |s| && StopsAtEnd(s, c + if s[c] != '\\' then 1 else if c + 1 < |s| && s[c + 1] == '\\' then 2 else 4))
  }

  lemma {:induction false} WithinIff(s: string, c: nat)
    requires c <= |s| && '\0' !in s
    ensures Within(s[c..]) <==> StopsAtEnd(s, c)
    decreases |s| - c
  {
    if c < |s| {
      var n := if s[c] != '\\' then 1 else if c + 1 < |s| && s[c + 1] == '\\' then 2 else 4;
      if c + n <= |s| {
        Slice(s, c, n);
        WithinIff(s, c + n);
      }
    }
  }

  lemma {:induction false} WellFormedWithin(s: string)
    requires WellFormed(s)
    ensures Within(s) && |Units(s)| == |Bytes(s)|
    decreases |s|
  {
    if s != "" { WellFormedWithin(s[if s[0] != '\\' then 1 else if s[1] == '\\' then 2 else 4..]); }
  }

  /** The characters of s that stand for its first byte. */
  function UnitLen(s: string): (n: nat)
    requires Within(s) && s != ""
    ensures 1 <= n <= |s| && Within(s[n..]) && (WellFormed(s) ==> WellFormed(s[n..]))
  {
    if s[0] != '\\' then 1 else if s[1] == '\\' then 2 else 4
  }

  type Unit = u: string | u != "" witness "x"

  /** The string in pieces, one to a byte. */
  function Units(s: string): (u: seq<Unit>)
    requires Within(s)
    decreases |s|
  {
    if s == "" then [] else [s[..UnitLen(s)]] + Units(s[UnitLen(s)..])
  }

  function Joined(u: seq<Unit>): string {
    if u == [] then "" else u[0] + Joined(u[1..])
  }

  /** The pieces are the string, and each is a character, two backslashes, or a backslash and three characters. */
  lemma {:induction false} UnitsAre(s: string)
    requires Within(s)
    ensures Joined(Units(s)) == s
    ensures forall i :: 0 <= i < |Units(s)| ==> IsUnit(Units(s)[i])
    decreases |s|
  {
    hide Within, UnitLen, Units, Joined, IsUnit;
    if s == "" {
      NoUnits();
    } else {
      var n := UnitLen(s);
      FirstUnit(s);
      UnitsAre(s[n..]);
      JoinedFirst(s[..n], Units(s[n..]));
      assert s[..n] + s[n..] == s;
    }
  }

  predicate IsUnit(u: Unit) {
    (|u| == 1 && u[0] != '\\') || u == "\\\\" || (|u| == 4 && u[0] == '\\' && u[1] != '\\')
  }

  lemma NoUnits()
    ensures Units("") == [] && Joined([]) == ""
  {
  }

  lemma FirstUnit(s: string)
    requires Within(s) && s != ""
    ensures Units(s) == [s[..UnitLen(s)]] + Units(s[UnitLen(s)..]) && IsUnit(s[..UnitLen(s)])
  {
  }

  lemma JoinedFirst(u: Unit, rest: seq<Unit>)
    ensures Joined([u] + rest) == u + Joined(rest)
  {
    assert ([u] + rest)[1..] == rest;
  }

  function Octal(s: string): int
    requires |s| == 3
  {
    (s[0] as int - '0' as int) * 64 + (s[1] as int - '0' as int) * 8 + (s[2] as int - '0' as int)
  }

  function FirstByte(s: string): int
    requires WellFormed(s) && s != ""
  {
    if s[0] != '\\' then s[0] as int else if s[1] == '\\' then '\\' as int else Octal(s[1..4])
  }

  /** The bytes a string stands for. */
  function Bytes(s: string): (b: seq<int>)
    requires WellFormed(s)
  {
    if s == "" then [] else
      [FirstByte(s)] + Bytes(s[if s[0] != '\\' then 1 else if s[1] == '\\' then 2 else 4..])
  }

  lemma Slice(s: string, i: nat, j: nat)
    requires i + j <= |s|
    ensures s[i..][j..] == s[i + j..]
  {
  }

  /** PSWStringLength */
  method StringLength(s: string) returns (len: nat)
    requires Within(s)
    ensures len == |Units(s)|
    ensures WellFormed(s) ==> len == |Bytes(s)|
  {
    hide WellFormed;
    len := 0;
    var c := 0;
    assert s[0..] == s;
    while c < |s|
      invariant c <= |s| && Within(s[c..]) && len + |Units(s[c..])| == |Units(s)|
      decreases |s| - c
    {
      ghost var n := UnitLen(s[c..]);
      Slice(s, c, n);
      var b := s[c];
      c := c + 1;
      if b == '\\' {
        b := s[c];
        c := c + 1;
        if b != '\\' { c := c + 2; }
      }
      len := len + 1;
    }
    if WellFormed(s) { WellFormedWithin(s); }
  }

  /** The value of a C character constant, by what stands between its quotes. */
  function Constant(lit: string): int {
    if |lit| == 1 then lit[0] as int
    else if |lit| == 2 && lit[0] == '\\' then Escape(lit[1])
    else if |lit| == 4 && lit[0] == '\\' then Octal(lit[1..])
    else -1
  }

  function Escape(c: char): int {
    if c == 'b' then 8 else if c == 't' then 9 else if c == 'f' then 12 else c as int
  }

  /** What is written for a character that is not a backslash. */
  function Written(b: char): (lit: string)
    requires b != '\\'
    ensures Constant(lit) == b as int
  {
    if b == '\'' then ['\\', '\'']
    else if b == '\"' then ['\\', '\"']
    else if b as int == 8 then "\\b"
    else if b as int == 12 then "\\f"
    else if b == '\n' then "\\012"
    else if b == '\r' then "\\015"
    else if b == '\t' then "\\t"
    else [b]
  }

  function Constants(out: seq<string>): seq<int> {
    if out == [] then [] else Constants(out[..|out| - 1]) + [Constant(out[|out| - 1])]
  }

  lemma OneMoreConstant(out: seq<string>, lit: string)
    ensures Constants(out + [lit]) == Constants(out) + [Constant(lit)]
  {
    assert (out + [lit])[..|out|] == out;
  }

  lemma Associate(a: seq<int>, x: int, b: seq<int>)
    ensures a + ([x] + b) == a + [x] + b
  {
  }

  /** What is written for a piece. */
  function Literal(u: Unit): string {
    if u[0] != '\\' then Written(u[0]) else u
  }

  function LiteralsOf(u: seq<Unit>): seq<string> {
    if u == [] then [] else [Literal(u[0])] + LiteralsOf(u[1..])
  }

  /** The constants written for a well-formed string are its bytes. */
  lemma {:induction false} ConstantsAreBytes(s: string, before: seq<string>)
    requires WellFormed(s)
    ensures Within(s) && Constants(before + LiteralsOf(Units(s))) == Constants(before) + Bytes(s)
    decreases |s|
  {
    hide Written, Constant, Constants, Literal, LiteralsOf, FirstByte, UnitLen, Units;
    WellFormedWithin(s);
    if s == "" {
      NoLiterals();
      assert before + [] == before && Constants(before) + Bytes(s) == Constants(before);
    } else {
      var n := UnitLen(s);
      var lit, rest := Literal(s[..n]), LiteralsOf(Units(s[n..]));
      LiteralsFirst(s);
      BytesFirst(s);
      ConstantsAreBytes(s[n..], before + [lit]);
      assert before + ([lit] + rest) == before + [lit] + rest;
      OneMoreConstant(before, lit);
      FirstConstant(s);
      Associate(Constants(before), FirstByte(s), Bytes(s[n..]));
    }
  }

  lemma NoLiterals()
    ensures LiteralsOf(Units("")) == [] && Constants([]) == []
  {
  }

  lemma BytesFirst(s: string)
    requires WellFormed(s) && s != ""
    ensures Within(s) && WellFormed(s[UnitLen(s)..]) && Bytes(s) == [FirstByte(s)] + Bytes(s[UnitLen(s)..])
  {
    WellFormedWithin(s);
  }

  lemma FirstConstant(s: string)
    requires WellFormed(s) && Within(s) && s != ""
    ensures Constant(Literal(s[..UnitLen(s)])) == FirstByte(s)
  {
    hide Written;
    if s[0] == '\\' && s[1] != '\\' { assert s[..4][1..] == s[1..4]; }
  }

  /** PSWOutputStringChars: a constant for each piece, which for well-formed strings is the byte. */
  method OutputStringChars(s: string) returns (out: seq<string>)
    requires Within(s)
    ensures out == LiteralsOf(Units(s))
    ensures WellFormed(s) ==> Constants(out) == Bytes(s)
  {
    hide Written, Constant, UnitLen, WellFormed, Within, Units, Literal, LiteralsOf, Constants, Bytes;
    out := [];
    var c := 0;
    NoLiterals();
    assert s[0..] == s && [] + LiteralsOf(Units(s)) == LiteralsOf(Units(s));
    while c < |s|
      invariant c <= |s| && Within(s[c..]) && out + LiteralsOf(Units(s[c..])) == LiteralsOf(Units(s))
      decreases |s| - c
    {
      ghost var t := s[c..];
      ghost var n := UnitLen(t);
      Slice(s, c, n);
      var lit;
      lit, c := NextLiteral(s, c);
      LiteralsFirst(t);
      assert out + ([lit] + LiteralsOf(Units(t[n..]))) == out + [lit] + LiteralsOf(Units(t[n..]));
      out := out + [lit];
    }
    assert s[|s|..] == "" && out + [] == out;
    if WellFormed(s) {
      ConstantsAreBytes(s, []);
      assert [] + out == out && [] + Bytes(s) == Bytes(s);
    }
  }

  lemma LiteralsFirst(s: string)
    requires Within(s) && s != ""
    ensures Units(s) == [s[..UnitLen(s)]] + Units(s[UnitLen(s)..])
    ensures LiteralsOf(Units(s)) == [Literal(s[..UnitLen(s)])] + LiteralsOf(Units(s[UnitLen(s)..]))
  {
    hide Written, Literal;
    assert Units(s)[1..] == Units(s[UnitLen(s)..]);
  }

  /** The constant for the piece at c, and where the next begins. */
  method NextLiteral(s: string, c: nat) returns (lit: string, next: nat)
    requires c < |s| && Within(s[c..])
    ensures lit == Literal(s[c..][..UnitLen(s[c..])]) && next == c + UnitLen(s[c..])
  {
    hide Written;
    ghost var t := s[c..];
    assert t[0] == s[c];
    if s[c] != '\\' {
      return Written(s[c]), c + 1;
    }
    assert t[1] == s[c + 1];
    if s[c + 1] == '\\' {
      assert t[..2] == s[c..c + 2];
      return s[c..c + 2], c + 2;
    }
    assert t[..4] == s[c..c + 4];
    return s[c..c + 4], c + 4;
  }

  // Hexadecimal strings

  function HexDigit(c: char): int {
    if '0' <= c <= '9' then c as int - '0' as int
    else if 'a' <= c <= 'f' then c as int - 'a' as int + 10
    else c as int - 'A' as int + 10
  }

  /** Two digits to a byte; a last one without a partner is a byte of its own. */
  function HexBytes(s: string): (b: seq<int>)
    ensures |b| == (|s| + 1) / 2
  {
    if s == "" then [] else [HexValue(s[..if |s| > 1 then 2 else 1])] + HexBytes(s[if |s| > 1 then 2 else 1..])
  }

  function HexValue(s: string): int {
    if |s| == 1 then HexDigit(s[0]) else if |s| == 2 then HexDigit(s[0]) * 16 + HexDigit(s[1]) else -1
  }

  /** PSWHexStringLength */
  function HexStringLength(s: string): (len: nat)
    ensures len == |HexBytes(s)|
  {
    (|s| + 1) / 2
  }

  function HexValues(out: seq<string>): seq<int> {
    if out == [] then [] else HexValues(out[..|out| - 1]) + [HexValue(out[|out| - 1])]
  }

  lemma OneMoreValue(out: seq<string>, lit: string)
    ensures HexValues(out + [lit]) == HexValues(out) + [HexValue(lit)]
  {
    assert (out + [lit])[..|out|] == out;
  }

  /** PSWOutputHexStringChars: the values of the digits written behind each 0x are the bytes. */
  method OutputHexStringChars(s: string) returns (out: seq<string>)
    ensures HexValues(out) == HexBytes(s)
  {
    hide HexValue;
    out := [];
    var c := 0;
    assert s[0..] == s;
    while c < |s|
      invariant c <= |s|
      invariant HexValues(out) + HexBytes(s[c..]) == HexBytes(s)
      decreases |s| - c
    {
      var n := if c + 1 < |s| then 2 else 1;
      ghost var t := s[c..];
      Slice(s, c, n);
      var lit := s[c..c + n];
      assert lit == t[..n];
      OneMoreValue(out, lit);
      Associate(HexValues(out), HexValue(lit), HexBytes(t[n..]));
      out := out + [lit];
      c := c + n;
    }
  }

  const LOWER := "0123456789abcdef"
  const UPPER := "0123456789ABCDEF"

  /** Bytes written with two digits each. */
  function InHex(b: seq<int>, digits: string): (s: string)
    requires |digits| == 16 && forall i :: 0 <= i < |b| ==> 0 <= b[i] < 256
  {
    if b == [] then "" else [digits[b[0] / 16], digits[b[0] % 16]] + InHex(b[1..], digits)
  }

  lemma DigitsAre(d: int)
    requires 0 <= d < 16
    ensures HexDigit(LOWER[d]) == d && HexDigit(UPPER[d]) == d
  {
  }

  /** Digits written in lower or upper case stand for the bytes they were written from. */
  lemma {:induction false} HexRoundTrip(b: seq<int>, digits: string)
    requires (digits == LOWER || digits == UPPER) && forall i :: 0 <= i < |b| ==> 0 <= b[i] < 256
    ensures HexBytes(InHex(b, digits)) == b
    decreases |b|
  {
    hide HexDigit;
    if b != [] {
      var two, s := [digits[b[0] / 16], digits[b[0] % 16]], InHex(b[1..], digits);
      DigitsAre(b[0] / 16);
      DigitsAre(b[0] % 16);
      HexRoundTrip(b[1..], digits);
      assert (two + s)[..2] == two && (two + s)[2..] == s;
      assert HexValue(two) == b[0];
    }
  }

  const OCTALS := "01234567"

  function ThreeDigits(x: int): (s: string)
    requires 0 <= x < 512
    ensures |s| == 3
  {
    [OCTALS[x / 64], OCTALS[x / 8 % 8], OCTALS[x % 8]]
  }

  /** Bytes written in octal, as the scanner leaves the unprintable ones. */
  function InOctal(b: seq<int>): (s: string)
    requires forall i :: 0 <= i < |b| ==> 0 <= b[i] < 512
  {
    if b == [] then "" else ['\\'] + ThreeDigits(b[0]) + InOctal(b[1..])
  }

  lemma OctalsAre(d: int)
    requires 0 <= d < 8
    ensures IsOctal(OCTALS[d]) && OCTALS[d] as int - '0' as int == d
  {
  }

  lemma ThreeDigitsAre(x: int)
    requires 0 <= x < 512
    ensures var s := ThreeDigits(x); IsOctal(s[0]) && IsOctal(s[1]) && IsOctal(s[2]) && Octal(s) == x
  {
    hide IsOctal;
    OctalsAre(x / 64);
    OctalsAre(x / 8 % 8);
    OctalsAre(x % 8);
    assert x == x / 64 * 64 + x / 8 % 8 * 8 + x % 8;
  }

  lemma OctalFirst(d: string, rest: string)
    requires |d| == 3 && IsOctal(d[0]) && IsOctal(d[1]) && IsOctal(d[2]) && WellFormed(rest)
    ensures var s := ['\\'] + d + rest; WellFormed(s) && Bytes(s) == [Octal(d)] + Bytes(rest)
  {
    var s := ['\\'] + d + rest;
    assert s[1] == d[0] && s[2] == d[1] && s[3] == d[2];
    assert s[4..] == rest && s[1..4] == d;
    assert WellFormed(s);
    hide Octal;
    assert FirstByte(s) == Octal(d);
  }

  /** Every byte has an octal spelling, which stands for it. */
  lemma {:induction false} OctalRoundTrip(b: seq<int>)
    requires forall i :: 0 <= i < |b| ==> 0 <= b[i] < 512
    ensures WellFormed(InOctal(b)) && Bytes(InOctal(b)) == b
    decreases |b|
  {
    hide WellFormed, Bytes, Octal, ThreeDigits, IsOctal;
    if b == [] {
      NothingInOctal();
    } else {
      ThreeDigitsAre(b[0]);
      OctalRoundTrip(b[1..]);
      OctalFirst(ThreeDigits(b[0]), InOctal(b[1..]));
    }
  }

  lemma NothingInOctal()
    ensures WellFormed("") && Bytes("") == []
  {
  }
}
