/** The text form of a seek request, as the server cuts it up with strtok and strtoul
    (sections 7.24.5.8 and 7.22.1.4 of ISO/IEC 9899:2011). */
module SeekCommand {
  import opened Machine

  const PREFIX: seq<Byte> := "AESDCHAR_IOCSEEKTO:"
  const COMMA: Byte := ','

  datatype SeekTo = SeekTo(writeCmd: nat, writeCmdOffset: nat)
  datatype Token = Token(text: seq<Byte>, rest: seq<Byte>)

  // ----- strtok with the delimiter ","

  function SkipCommas(s: seq<Byte>): seq<Byte> {
    if s != [] && s[0] == COMMA then SkipCommas(s[1..]) else s
  }

  function UpToComma(s: seq<Byte>): (n: nat)
    ensures n <= |s|
    ensures forall i :: 0 <= i < n ==> s[i] != COMMA
    ensures n < |s| ==> s[n] == COMMA
  {
    if s == [] || s[0] == COMMA then 0 else 1 + UpToComma(s[1..])
  }

  /** The next token, if any, and where the following call resumes. */
  function Strtok(s: seq<Byte>): Option<Token> {
    var t := SkipCommas(s);
    if t == [] then None
    else
      var n := UpToComma(t);
      Some(Token(t[..n], if n < |t| then t[n + 1..] else []))
  }

  // ----- strtoul in base 10

  predicate IsSpace(c: Byte) {
    c == ' ' || 9 <= c as int <= 13
  }

  predicate IsDigit(c: Byte) {
    '0' <= c <= '9'
  }

  function SkipSpaces(s: seq<Byte>): seq<Byte> {
    if s != [] && IsSpace(s[0]) then SkipSpaces(s[1..]) else s
  }

  /** The number the digits at the front of `s` continue `acc` to. */
  function Digits(s: seq<Byte>, acc: nat): nat {
    if s == [] || !IsDigit(s[0]) then acc else Digits(s[1..], acc * 10 + (s[0] as int - '0' as int))
  }

  /** The value as `unsigned long`: too large a number gives the largest, a minus sign negates modulo 2^64. */
  function Strtoul(s: seq<Byte>): (r: nat)
    ensures r < TWO_64
  {
    var t := SkipSpaces(s);
    var negative := t != [] && t[0] == '-';
    var v := Digits(if t != [] && (t[0] == '-' || t[0] == '+') then t[1..] else t, 0);
    if v >= TWO_64 then TWO_64 - 1 else if negative then U64(TWO_64 - v) else v
  }

  /** Assignment to a `uint32_t`. */
  function U32(x: nat): (r: nat)
    ensures r < TWO_32
    ensures r == x <==> x < TWO_32
  {
    x % 0x1_0000_0000
  }

  /** The request in a packet that starts with the prefix, or none when a token is missing. */
  function Parse(packet: seq<Byte>): Option<SeekTo>
    requires PREFIX <= packet
  {
    match Strtok(packet[|PREFIX|..])
    case None => None
    case Some(first) =>
      match Strtok(first.rest)
      case None => None
      case Some(second) => Some(SeekTo(U32(Strtoul(first.text)), U32(Strtoul(second.text))))
  }

  // ----- the numbers read

  /** Digits are read in base ten: one more digit behind takes the number times ten. */
  lemma {:induction false} DigitsNext(s: seq<Byte>, d: Byte, acc: nat)
    requires '0' <= d <= '9' && forall i :: 0 <= i < |s| ==> '0' <= s[i] <= '9'
    ensures Digits(s + [d], acc) == 10 * Digits(s, acc) + (d as int - '0' as int)
    ensures Digits([], acc) == acc
    decreases s
  {
    if s == [] {
      assert [] + [d] == [d] && [d][1..] == [];
    } else {
      assert (s + [d])[1..] == s[1..] + [d];
      DigitsNext(s[1..], d, acc * 10 + (s[0] as int - '0' as int));
    }
  }

  /** Reading stops at the first character that is no digit. */
  lemma {:induction false} DigitsStop(s: seq<Byte>, rest: seq<Byte>, acc: nat)
    requires forall i :: 0 <= i < |s| ==> '0' <= s[i] <= '9'
    requires rest == [] || !('0' <= rest[0] <= '9')
    ensures Digits(s + rest, acc) == Digits(s, acc)
    decreases s
  {
    if s == [] {
      assert s + rest == rest;
    } else {
      assert (s + rest)[1..] == s[1..] + rest;
      DigitsStop(s[1..], rest, acc * 10 + (s[0] as int - '0' as int));
    }
  }

  /** White space as isspace has it in the C locale. */
  ghost predicate AllSpace(s: seq<Byte>) {
    forall i :: 0 <= i < |s| ==> s[i] in {' ', '\t', '\n', '\r', 11 as char, 12 as char}
  }

  lemma {:induction false} SpacesSkipped(spaces: seq<Byte>, s: seq<Byte>)
    requires AllSpace(spaces)
    requires s == [] || s[0] !in {' ', '\t', '\n', '\r', 11 as char, 12 as char}
    ensures SkipSpaces(spaces + s) == s
    decreases spaces
  {
    if spaces == [] {
      assert spaces + s == s;
    } else {
      assert spaces[0] in {' ', '\t', '\n', '\r', 11 as char, 12 as char};
      assert (spaces + s)[1..] == spaces[1..] + s;
      SpacesSkipped(spaces[1..], s);
    }
  }

  /** White space, a sign or none, digits, and then something else: the value of the digits,
      clamped to 64 bits or else, behind a minus sign, taken from 2^64. */
  lemma {:induction false} StrtoulValue(spaces: seq<Byte>, sign: seq<Byte>, digits: seq<Byte>, rest: seq<Byte>)
    requires AllSpace(spaces) && sign in {"", "+", "-"}
    requires digits != [] && forall i :: 0 <= i < |digits| ==> '0' <= digits[i] <= '9'
    requires rest == [] || !('0' <= rest[0] <= '9')
    ensures var v := Digits(digits, 0);
            Strtoul(spaces + (sign + (digits + rest))) ==
            if v >= TWO_64 then TWO_64 - 1 else if sign == "-" && v > 0 then TWO_64 - v else v
  {
    var body := digits + rest;
    var t := sign + body;
    assert body[0] == digits[0];
    assert sign == "" ==> t == body;
    assert sign != "" ==> t[0] == sign[0] && t[1..] == body;
    SpacesSkipped(spaces, t);
    DigitsStop(digits, rest, 0);
  }

  /** Where no number begins the value is 0. */
  lemma {:induction false} StrtoulNone(spaces: seq<Byte>, s: seq<Byte>)
    requires AllSpace(spaces)
    requires s == [] || s[0] !in {' ', '\t', '\n', '\r', 11 as char, 12 as char}
    requires s == [] || !('0' <= s[0] <= '9')
    requires |s| > 1 && s[0] in {'+', '-'} ==> !('0' <= s[1] <= '9')
    ensures Strtoul(spaces + s) == 0
  {
    SpacesSkipped(spaces, s);
  }

  // ----- printing and round trip

  function DigitChar(d: nat): Byte
    requires d < 10
  {
    ('0' as int + d) as char
  }

  function Decimal(n: nat): (s: seq<Byte>)
    ensures s != [] && forall i :: 0 <= i < |s| ==> IsDigit(s[i])
  {
    if n < 10 then [DigitChar(n)] else Decimal(n / 10) + [DigitChar(n % 10)]
  }

  lemma {:induction false} DigitsOfDecimal(n: nat, rest: seq<Byte>)
    ensures Digits(Decimal(n) + rest, 0) == Digits(rest, n)
  {
    if n < 10 {
      assert (Decimal(n) + rest)[1..] == rest;
    } else {
      var last := [DigitChar(n % 10)];
      assert Decimal(n) + rest == Decimal(n / 10) + (last + rest);
      DigitsOfDecimal(n / 10, last + rest);
      assert (last + rest)[1..] == rest;
    }
  }

  lemma {:induction false} StrtoulOfDecimal(n: nat, rest: seq<Byte>)
    requires rest == [] || !IsDigit(rest[0])
    ensures Strtoul(Decimal(n) + rest) == if n >= TWO_64 then TWO_64 - 1 else n
  {
    var s := Decimal(n) + rest;
    assert s[0] == Decimal(n)[0];
    assert SkipSpaces(s) == s;
    DigitsOfDecimal(n, rest);
  }

  lemma {:induction false} UpToCommaAppend(a: seq<Byte>, rest: seq<Byte>)
    requires forall i :: 0 <= i < |a| ==> a[i] != COMMA
    ensures UpToComma(a + rest) == |a| + UpToComma(rest)
  {
    if a == [] {
      assert a + rest == rest;
    } else {
      assert (a + rest)[1..] == a[1..] + rest;
      UpToCommaAppend(a[1..], rest);
    }
  }

  lemma {:induction false} Parts(a: seq<Byte>, b: seq<Byte>)
    ensures (a + b)[|a|..] == b && (a + b)[..|a|] == a
    ensures b != [] ==> (a + b)[|a| + 1..] == b[1..]
  {
  }

  lemma {:induction false} StrtokField(field: seq<Byte>, rest: seq<Byte>)
    requires field != [] && forall i :: 0 <= i < |field| ==> field[i] != COMMA
    requires rest == [] || rest[0] == COMMA
    ensures Strtok(field + rest) == Some(Token(field, if rest == [] then [] else rest[1..]))
  {
    var s := field + rest;
    assert s[0] == field[0];
    assert SkipCommas(s) == s;
    UpToCommaAppend(field, rest);
    assert UpToComma(rest) == 0;
    Parts(field, rest);
  }

  /** Two comma-free fields separated by a comma are read as two numbers. */
  lemma {:induction false} ParseFields(a: seq<Byte>, b: seq<Byte>)
    requires a != [] && forall i :: 0 <= i < |a| ==> a[i] != COMMA
    requires b != [] && forall i :: 0 <= i < |b| ==> b[i] != COMMA
    ensures PREFIX <= PREFIX + (a + ([COMMA] + b))
    ensures Parse(PREFIX + (a + ([COMMA] + b))) == Some(SeekTo(U32(Strtoul(a)), U32(Strtoul(b))))
  {
    Parts(PREFIX, a + ([COMMA] + b));
    StrtokField(a, [COMMA] + b);
    Parts([COMMA], b);
    StrtokField(b, []);
    assert b + [] == b;
  }

  /** A literal request. */
  lemma {:induction false} ParseLiteral()
    ensures PREFIX == "AESDCHAR_IOCSEEKTO:"
    ensures PREFIX <= "AESDCHAR_IOCSEEKTO:0,12\n"
    ensures Parse("AESDCHAR_IOCSEEKTO:0,12\n") == Some(SeekTo(0, 12))
  {
    LiteralText();
    ParseFields("0", "12\n");
    LiteralNumbers();
  }

  lemma {:induction false} LiteralText()
    ensures PREFIX + ("0" + ([COMMA] + "12\n")) == "AESDCHAR_IOCSEEKTO:0,12\n"
  {
    assert [COMMA] + "12\n" == ",12\n";
    assert "0" + ",12\n" == "0,12\n";
  }

  lemma {:induction false} LiteralNumbers()
    ensures Strtoul("0") == 0 && Strtoul("12\n") == 12
  {
    DigitsNext([], '0', 0);
    DigitsNext([], '1', 0);
    DigitsNext("1", '2', 0);
    assert [] + ['0'] == "0" && [] + ['1'] == "1" && "1" + ['2'] == "12";
    NumberOf("0", []);
    NumberOf("12", "\n");
    assert "0" + [] == "0" && "12" + "\n" == "12\n";
  }

  lemma {:induction false} NumberOf(digits: seq<Byte>, rest: seq<Byte>)
    requires digits != [] && forall i :: 0 <= i < |digits| ==> '0' <= digits[i] <= '9'
    requires rest == [] || !('0' <= rest[0] <= '9')
    ensures Strtoul(digits + rest) == if Digits(digits, 0) >= TWO_64 then TWO_64 - 1 else Digits(digits, 0)
  {
    StrtoulValue("", "", digits, rest);
    assert "" + ("" + (digits + rest)) == digits + rest;
  }

  /** So of a packet with two decimal numbers at a comma both values are read, whatever follows. */
  lemma {:induction false} ParseDigits(a: seq<Byte>, b: seq<Byte>, rest: seq<Byte>)
    requires a != [] && forall i :: 0 <= i < |a| ==> '0' <= a[i] <= '9'
    requires b != [] && forall i :: 0 <= i < |b| ==> '0' <= b[i] <= '9'
    requires forall i :: 0 <= i < |rest| ==> rest[i] != ','
    requires rest == [] || !('0' <= rest[0] <= '9')
    ensures PREFIX <= PREFIX + (a + ([','] + (b + rest)))
    ensures var x, y := Digits(a, 0), Digits(b, 0);
            Parse(PREFIX + (a + ([','] + (b + rest)))) ==
            Some(SeekTo((if x >= TWO_64 then TWO_64 - 1 else x) % TWO_32, (if y >= TWO_64 then TWO_64 - 1 else y) % TWO_32))
  {
    ParseFields(a, b + rest);
    NumberOf(a, []);
    NumberOf(b, rest);
    assert a + [] == a;
  }

  function Request(x: nat, y: nat): seq<Byte> {
    PREFIX + (Decimal(x) + ([COMMA] + (Decimal(y) + [NEWLINE])))
  }

  /** Both numbers of a printed request come back, whatever their size, as far as the types
      they pass through hold them: clamped to 64 bits, then cut to 32. */
  lemma {:induction false} ParseRequest(x: nat, y: nat)
    ensures PREFIX <= Request(x, y)
    ensures Parse(Request(x, y)) ==
            Some(SeekTo(U32(if x >= TWO_64 then TWO_64 - 1 else x), U32(if y >= TWO_64 then TWO_64 - 1 else y)))
  {
    ParseFields(Decimal(x), Decimal(y) + [NEWLINE]);
    assert Decimal(x) + [] == Decimal(x);
    StrtoulOfDecimal(x, []);
    StrtoulOfDecimal(y, [NEWLINE]);
  }

  /** A request survives the text form exactly when both numbers fit 32 bits. */
  lemma {:induction false} RequestRoundTrip(x: nat, y: nat)
    ensures PREFIX <= Request(x, y)
    ensures Parse(Request(x, y)) == Some(SeekTo(x, y)) <==> x < TWO_32 && y < TWO_32
  {
    ParseRequest(x, y);
  }

  // ----- which packets are requests at all

  /** Something, a comma, and something after it. */
  ghost predicate TwoFields(s: seq<Byte>) {
    exists i, j, k :: 0 <= i < j < k < |s| && s[i] != COMMA && s[j] == COMMA && s[k] != COMMA
  }

  lemma {:induction false} SkipCommasSuffix(s: seq<Byte>) returns (m: nat)
    ensures m <= |s| && SkipCommas(s) == s[m..]
    ensures forall i :: 0 <= i < m ==> s[i] == COMMA
    ensures m < |s| ==> s[m] != COMMA
  {
    if s != [] && s[0] == COMMA {
      m := SkipCommasSuffix(s[1..]);
      assert s[1..][m..] == s[m + 1..];
      forall i | 0 <= i < m + 1
        ensures s[i] == COMMA
      {
        if i > 0 {
          assert s[1..][i - 1] == s[i];
        }
      }
      m := m + 1;
    } else {
      m := 0;
    }
  }

  /** A packet with the prefix is refused exactly when it does not hold two fields. */
  lemma {:induction false} ParseAccepts(packet: seq<Byte>)
    requires PREFIX <= packet
    ensures Parse(packet).Some? <==> TwoFields(packet[|PREFIX|..])
  {
    var s := packet[|PREFIX|..];
    var m, n := FirstField(s);
    if m < |s| {
      var t := s[m..];
      var rest := if n < |t| then t[n + 1..] else [];
      var m', n' := FirstField(rest);
      if m' < |rest| {
        FieldsFound(s, m, t, n, rest, m');
      } else {
        FieldsMissing(s, m, t, n, rest);
      }
    }
  }

  /** The first token of `s`, if any, lies behind `m` commas and has `n` characters. */
  lemma {:induction false} FirstField(s: seq<Byte>) returns (m: nat, n: nat)
    ensures m <= |s| && (m == |s| <==> Strtok(s).None?)
    ensures forall i :: 0 <= i < m ==> s[i] == COMMA
    ensures m < |s| ==>
              var t := s[m..];
              && s[m] != COMMA && n <= |t| && (forall i :: 0 <= i < n ==> t[i] != COMMA) && (n < |t| ==> t[n] == COMMA)
              && Strtok(s) == Some(Token(t[..n], if n < |t| then t[n + 1..] else []))
  {
    m := SkipCommasSuffix(s);
    n := UpToComma(s[m..]);
  }

  lemma {:induction false} FieldsFound(s: seq<Byte>, m: nat, t: seq<Byte>, n: nat, rest: seq<Byte>, m': nat)
    requires m < |s| && t == s[m..] && n < |t| && rest == t[n + 1..] && m' < |rest|
    requires s[m] != COMMA && t[n] == COMMA && rest[m'] != COMMA
    ensures TwoFields(s)
  {
    assert s[m + n] == COMMA && s[m + n + 1 + m'] != COMMA;
  }

  /** Only commas, one field, and only commas. */
  lemma {:induction false} FieldsMissing(s: seq<Byte>, m: nat, t: seq<Byte>, n: nat, rest: seq<Byte>)
    requires m <= |s| && t == s[m..] && n <= |t| && rest == if n < |t| then t[n + 1..] else []
    requires forall i :: 0 <= i < m ==> s[i] == COMMA
    requires forall i :: 0 <= i < n ==> t[i] != COMMA
    requires forall i :: 0 <= i < |rest| ==> rest[i] == COMMA
    ensures !TwoFields(s)
  {
    forall i | 0 <= i < |s|
      ensures s[i] != COMMA ==> m <= i <= m + n
      ensures m <= i < m + n ==> s[i] != COMMA
    {
      if m <= i < m + n {
        assert t[i - m] == s[i];
      } else if m + n < i {
        assert rest[i - (m + n + 1)] == s[i];
      }
    }
  }

  // ----- strtok keeps its place between calls, one place for all threads

  /** A call that starts on a text of its own, or one that goes on from the place kept. */
  datatype Cut = First(who: nat, text: seq<Byte>) | Second(who: nat)

  function RestAfter(s: seq<Byte>): seq<Byte> {
    match Strtok(s)
    case None => []
    case Some(token) => token.rest
  }

  /** The place kept after these calls. */
  function Kept(cuts: seq<Cut>): seq<Byte>
    decreases |cuts|, 0
  {
    if cuts == [] then []
    else RestAfter(TextOf(cuts[..|cuts| - 1], cuts[|cuts| - 1]))
  }

  /** What call `c` works on after the calls `cuts`. */
  function TextOf(cuts: seq<Cut>, c: Cut): seq<Byte>
    decreases |cuts|, 1
  {
    match c
    case First(_, text) => text
    case Second(_) => Kept(cuts)
  }

  function Cuts(cuts: seq<Cut>, i: nat): Option<Token>
    requires i < |cuts|
  {
    Strtok(TextOf(cuts[..i], cuts[i]))
  }

  /** The request a thread makes of the two tokens it got. */
  function FromTokens(first: Option<Token>, second: Option<Token>): Option<SeekTo> {
    if first.None? || second.None? then None
    else Some(SeekTo(U32(Strtoul(first.value.text)), U32(Strtoul(second.value.text))))
  }

  /** With no call of another thread between its two, a thread gets the request in its packet. */
  lemma {:induction false} OwnTokens(cuts: seq<Cut>, i: nat, packet: seq<Byte>)
    requires i + 1 < |cuts| && PREFIX <= packet
    requires cuts[i] == First(cuts[i].who, packet[|PREFIX|..]) && cuts[i + 1] == Second(cuts[i].who)
    ensures FromTokens(Cuts(cuts, i), if Cuts(cuts, i).None? then None else Cuts(cuts, i + 1)) == Parse(packet)
  {
    var before := cuts[..i + 1];
    assert before[..i] == cuts[..i] && before[i] == cuts[i];
    assert Kept(before) == RestAfter(packet[|PREFIX|..]);
  }

  /** Two threads in turn. */
  function InTurn(a: seq<Byte>, b: seq<Byte>): seq<Cut> {
    [First(0, a), First(1, b), Second(0), Second(1)]
  }

  /** The first thread's second token is that of the other's text. */
  lemma {:induction false} TokensInTurn(a: seq<Byte>, b: seq<Byte>)
    ensures Cuts(InTurn(a, b), 0) == Strtok(a) && Cuts(InTurn(a, b), 1) == Strtok(b)
    ensures Cuts(InTurn(a, b), 2) == Strtok(RestAfter(b))
    ensures Cuts(InTurn(a, b), 3) == Strtok(RestAfter(RestAfter(b)))
  {
    var cuts := InTurn(a, b);
    KeptOne(cuts[..1], cuts[1]);
    KeptOne(cuts[..2], cuts[2]);
    assert cuts[..2] == cuts[..1] + [cuts[1]] && cuts[..3] == cuts[..2] + [cuts[2]];
  }

  /** So of two requests the first gets the number of the second, and that one is refused. */
  lemma {:induction false} RequestsMixed()
    ensures FromTokens(Cuts(InTurn("1,2", "3,4"), 0), Cuts(InTurn("1,2", "3,4"), 2)) == Some(SeekTo(1, 4))
    ensures FromTokens(Cuts(InTurn("1,2", "3,4"), 1), Cuts(InTurn("1,2", "3,4"), 3)) == None
  {
    TokensInTurn("1,2", "3,4");
    MixedTokens();
    MixedNumbers();
  }

  lemma {:induction false} KeptOne(cuts: seq<Cut>, c: Cut)
    ensures Kept(cuts + [c]) == RestAfter(TextOf(cuts, c))
  {
    var longer := cuts + [c];
    assert longer[..|longer| - 1] == cuts && longer[|longer| - 1] == c;
  }

  lemma {:induction false} MixedTokens()
    ensures Strtok("1,2") == Some(Token("1", "2")) && Strtok("3,4") == Some(Token("3", "4"))
    ensures Strtok("4") == Some(Token("4", [])) && Strtok([]) == None
  {
    StrtokField("1", ",2");
    StrtokField("3", ",4");
    StrtokField("4", []);
    assert "1" + ",2" == "1,2" && "3" + ",4" == "3,4" && "4" + [] == "4";
    assert ",2"[1..] == "2" && ",4"[1..] == "4";
  }

  lemma {:induction false} MixedNumbers()
    ensures Strtoul("1") == 1 && Strtoul("4") == 4
  {
    StrtoulOfDecimal(1, []);
    StrtoulOfDecimal(4, []);
    assert Decimal(1) + [] == "1" && Decimal(4) + [] == "4";
  }
}
