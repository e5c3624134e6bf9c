/** The stored line of py-syslog: the escaping contract and the one-datagram, one-line renderer. */
module StoredLine {
  import opened Common

  /** A code point some renderer could take for a line break or a control: C0, DEL, C1, U+2028, U+2029. */
  predicate IsControl(c: char) {
    var code := c as int;
    code < 0x20 || code == 0x7F || 0x80 <= code <= 0x9F || code == 0x2028 || code == 0x2029
  }

  predicate Clean(s: string) { forall i :: 0 <= i < |s| ==> !IsControl(s[i]) }

  const HEX := "0123456789abcdef"

  function Hex(n: int, digits: nat): (r: string)
    requires 0 <= n
    ensures |r| == digits
  {
    if digits == 0 then "" else Hex(n / 16, digits - 1) + [HEX[n % 16]]
  }

  function EscapeChar(c: char): string {
    var code := c as int;
    if c == '\\' then "\\\\"
    else if c == '\n' then "\\n"
    else if c == '\r' then "\\r"
    else if c == '\t' then "\\t"
    else if code < 0x20 || code == 0x7F || 0x80 <= code <= 0x9F then "\\x" + Hex(code, 2)
    else if code == 0x2028 || code == 0x2029 then "\\u" + Hex(code, 4)
    else [c]
  }

  function EscapeSpec(text: string): string {
    if text == "" then "" else EscapeChar(text[0]) + EscapeSpec(text[1..])
  }

  method Escape(text: string) returns (out: string)
    ensures out == EscapeSpec(text)
  {
    out := "";
    for i := 0 to |text|
      invariant out + EscapeSpec(text[i..]) == EscapeSpec(text)
    {
      assert text[i..][1..] == text[i + 1..];
      out := out + EscapeChar(text[i]);
    }
    assert text[|text|..] == "";
  }

  // ---------------------------------------------------------------- decoding

  function HexValue(c: char): Option<int> {
    if '0' <= c <= '9' then Some(c as int - '0' as int)
    else if 'a' <= c <= 'f' then Some(c as int - 'a' as int + 10)
    else None
  }

  function FromHex(s: string): Option<int> {
    if s == "" then Some(0)
    else
      var high, low := FromHex(s[..|s| - 1]), HexValue(s[|s| - 1]);
      if high.None? || low.None? then None else Some(high.value * 16 + low.value)
  }

  function ToChar(code: Option<int>): Option<char> {
    if code.Some? && (0 <= code.value < 0xD800 || 0xE000 <= code.value < 0x11_0000) then Some(code.value as char)
        else None
  }

  datatype Token = Token(c: char, length: nat)

  /** The first code point of an escaped text and how many characters spell it. */
  function Next(s: string): Option<Token>
    requires s != ""
  {
    if s[0] != '\\' then Some(Token(s[0], 1))
    else if |s| < 2 then None
    else if s[1] == '\\' then Some(Token('\\', 2))
    else if s[1] == 'n' then Some(Token('\n', 2))
    else if s[1] == 'r' then Some(Token('\r', 2))
    else if s[1] == 't' then Some(Token('\t', 2))
    else
      var digits := if s[1] == 'x' then 2 else if s[1] == 'u' then 4 else 0;
      if digits == 0 || |s| < 2 + digits then None
      else
        var c := ToChar(FromHex(s[2..2 + digits]));
        if c.None? then None else Some(Token(c.value, 2 + digits))
  }

  function Decode(s: string): Option<string>
    decreases |s|
  {
    if s == "" then Some("")
    else
      var t := Next(s);
      if t.None? || t.value.length == 0 || t.value.length > |s| then None
      else
        var rest := Decode(s[t.value.length..]);
        if rest.None? then None else Some([t.value.c] + rest.value)
  }

  lemma HexDigit(n: int)
    requires 0 <= n < 16
    ensures HexValue(HEX[n]) == Some(n) && !IsControl(HEX[n]) && HEX[n] != '\\'
  {
  }

  /** How many values a number of hexadecimal digits spells. */
  function Span(digits: nat): nat { if digits == 0 then 1 else 16 * Span(digits - 1) }

  lemma {:induction false} HexRoundTrip(n: int, digits: nat)
    requires 0 <= n < Span(digits)
    ensures FromHex(Hex(n, digits)) == Some(n) && Clean(Hex(n, digits))
    decreases digits
  {
    if digits > 0 {
      HexRoundTrip(n / 16, digits - 1);
      HexDigit(n % 16);
      hide HexValue, IsControl;
      var s := Hex(n, digits);
      assert s[..|s| - 1] == Hex(n / 16, digits - 1) && s[|s| - 1] == HEX[n % 16];
    }
  }

  lemma HexIsOneToken(code: int, digits: nat, rest: string)
    requires (digits == 2 && 0 <= code < 256) || (digits == 4 && 0 <= code < 0xD800)
    ensures var head := (if digits == 2 then "\\x" else "\\u") + Hex(code, digits);
            Next(head + rest) == Some(Token(code as char, 2 + digits)) && Clean(head) && |head| == 2 + digits
  {
    assert Span(2) == 256 && Span(4) == 65536;
    HexRoundTrip(code, digits);
    var head := (if digits == 2 then "\\x" else "\\u") + Hex(code, digits);
    hide Hex, FromHex;
    assert (head + rest)[2..2 + digits] == Hex(code, digits);
  }

  /** Every code point's escape is one token, whatever follows it: the escapes form a prefix code. */
  lemma EscapeIsOneToken(c: char, rest: string)
    ensures EscapeChar(c) != "" && Next(EscapeChar(c) + rest) == Some(Token(c, |EscapeChar(c)|))
    ensures Clean(EscapeChar(c))
  {
    var code := c as int;
    if IsControl(c) && c != '\n' && c != '\r' && c != '\t' {
      HexIsOneToken(code, if code < 256 then 2 else 4, rest);
      hide Next, Hex, Clean;
      assert EscapeChar(c) == (if code < 256 then "\\x" + Hex(code, 2) else "\\u" + Hex(code, 4));
    } else {
      hide Hex, FromHex;
      assert |EscapeChar(c)| <= 2;
    }
  }

  /** No code point's escape begins another's. */
  lemma PrefixFree(a: char, b: char)
    requires EscapeChar(a) <= EscapeChar(b)
    ensures a == b
  {
    var rest := EscapeChar(b)[|EscapeChar(a)|..];
    assert EscapeChar(a) + rest == EscapeChar(b) == EscapeChar(b) + "";
    EscapeIsOneToken(a, rest);
    EscapeIsOneToken(b, "");
  }

  lemma DecodeStep(s: string, t: Token, rest: string)
    requires s != "" && Next(s) == Some(t) && 0 < t.length <= |s| && Decode(s[t.length..]) == Some(rest)
    ensures Decode(s) == Some([t.c] + rest)
  {
  }

  /** Escaping loses nothing. */
  lemma {:induction false} EscapeRoundTrip(text: string)
    ensures Decode(EscapeSpec(text)) == Some(text)
    decreases |text|
  {
    hide EscapeChar, Next;
    if text != "" {
      var head, tail := EscapeChar(text[0]), EscapeSpec(text[1..]);
      assert EscapeSpec(text) == head + tail;
      EscapeIsOneToken(text[0], tail);
      EscapeRoundTrip(text[1..]);
      assert (head + tail)[|head|..] == tail;
      DecodeStep(head + tail, Token(text[0], |head|), text[1..]);
      assert text == [text[0]] + text[1..];
    }
  }

  lemma {:induction false} EscapeDistributes(a: string, b: string)
    ensures EscapeSpec(a + b) == EscapeSpec(a) + EscapeSpec(b)
    decreases |a|
  {
    if a == "" {
      assert a + b == b;
    } else {
      assert (a + b)[1..] == a[1..] + b;
      EscapeDistributes(a[1..], b);
    }
  }

  /** No control and no line break of any renderer: below 32, 127 to 159, 8232 and 8233. */
  lemma {:induction false} EscapeIsClean(text: string)
    ensures Clean(EscapeSpec(text))
    ensures var e := EscapeSpec(text);
            forall i :: 0 <= i < |e| ==>
              e[i] as int >= 32 && !(127 <= e[i] as int <= 159) && e[i] as int !in {8232, 8233}
    decreases |text|
  {
    if text != "" {
      EscapeIsOneToken(text[0], "");
      assert EscapeChar(text[0]) + "" == EscapeChar(text[0]);
      EscapeIsClean(text[1..]);
    }
  }

  /** Text with none of those and no backslash is stored as it is. */
  lemma {:induction false} PlainTextPasses(text: string)
    requires forall i :: 0 <= i < |text| ==>
               && text[i] != '\\' && text[i] as int >= 32 && !(127 <= text[i] as int <= 159)
               && text[i] as int !in {8232, 8233}
    ensures EscapeSpec(text) == text
    decreases |text|
  {
    if text != "" { PlainTextPasses(text[1..]); }
  }

  /** Every escape, spelled out. */
  lemma EscapeIs(c: char)
    ensures var e, code := EscapeSpec([c]), c as int;
            && (c == '\\' ==> e == "\\\\") && (c == '\n' ==> e == "\\n")
            && (c == '\r' ==> e == "\\r") && (c == '\t' ==> e == "\\t")
            && ((code < 32 || 127 <= code <= 159) && c !in "\n\r\t" ==>
                  e == "\\x" + ["0123456789abcdef"[code / 16], "0123456789abcdef"[code % 16]])
            && (code == 8232 ==> e == "\\u2028") && (code == 8233 ==> e == "\\u2029")
  {
    hide EscapeSpec, Hex;
    Escapes([c], EscapeChar(c));
    if c as int < 256 { TwoDigits(c as int); }
    FourDigits();
  }

  lemma FourDigits()
    ensures Hex(0x2028, 4) == "2028" && Hex(0x2029, 4) == "2029"
  {
    TwoDigits(0x20);
    assert Hex(0x202, 3) == Hex(0x20, 2) + "2";
    assert Hex(0x2028, 4) == Hex(0x202, 3) + "8" && Hex(0x2029, 4) == Hex(0x202, 3) + "9";
  }

  lemma TwoDigits(n: int)
    requires 0 <= n < 256
    ensures Hex(n, 2) == ["0123456789abcdef"[n / 16], "0123456789abcdef"[n % 16]]
  {
    assert Hex(n / 16, 1) == Hex(n / 16 / 16, 0) + [HEX[n / 16]];
  }

  lemma Escapes(s: string, e: string)
    requires |s| == 1 && EscapeChar(s[0]) == e
    ensures EscapeSpec(s) == e
  {
    assert s[1..] == "";
  }

  // ---------------------------------------------------------------- the line

  /** What configuration validation lets through as a site or a host. */
  method RejectControlChars(value: string) returns (ok: bool)
    ensures ok <==> Clean(value)
    ensures ok <==> forall i :: 0 <= i < |value| ==>
                      && value[i] as int >= 32 && !(127 <= value[i] as int <= 159) && value[i] as int !in {8232, 8233}
  {
    for i := 0 to |value|
      invariant forall j :: 0 <= j < i ==> !IsControl(value[j])
    {
      if IsControl(value[i]) { return false; }
    }
    ok := true;
  }

  datatype SyslogRecord = SyslogRecord(recvTs: string, protocol: string, priorityText: string, program: string,
                                       senderTs: string, message: string, malformed: bool, raw: string,
                                       structuredData: string)

  function Body(r: SyslogRecord): string { if r.malformed then r.raw else r.message }

  function SdField(r: SyslogRecord, includeSd: bool): string {
    if includeSd && r.structuredData != "" then "SD={" + EscapeSpec(r.structuredData) + "} " else ""
  }

  function FormatLine(r: SyslogRecord, site: string, host: string, includeSd: bool): string {
    var sender := if r.senderTs != "" then EscapeSpec(r.senderTs) else "-";
    r.recvTs + " " + site + " " + host + " " + r.priorityText + " " + EscapeSpec(r.program) + ": [" + sender + "] "
    + SdField(r, includeSd) + EscapeSpec(Body(r)) + "\n"
  }

  lemma CleanJoin(a: string, b: string)
    requires Clean(a) && Clean(b)
    ensures Clean(a + b)
  {
  }

  /** Everything before a record's body. */
  lemma FrontIsClean(r: SyslogRecord, site: string, host: string, program: string, sender: string)
    requires Clean(r.recvTs) && Clean(r.priorityText) && Clean(site) && Clean(host) && Clean(program) && Clean(sender)
    ensures Clean(r.recvTs + " " + site + " " + host + " " + r.priorityText + " " + program + ": [" + sender + "] ")
  {
    var a := r.recvTs + " " + site + " " + host;
    assert Clean(a);
    var b := a + " " + r.priorityText + " " + program;
    assert Clean(b);
  }

  lemma SdIsClean(r: SyslogRecord, includeSd: bool)
    ensures Clean(SdField(r, includeSd))
  {
    EscapeIsClean(r.structuredData);
    var sd := EscapeSpec(r.structuredData);
    CleanJoin("SD={", sd);
    CleanJoin("SD={" + sd, "} ");
  }

  /** One datagram is one physical line: whatever the sender wrote, the only control or line-breaking
      code point of the stored line is the line feed at its end. */
  lemma OneLine(r: SyslogRecord, site: string, host: string, includeSd: bool)
    requires Clean(r.recvTs) && Clean(r.priorityText) && Clean(site) && Clean(host)
    ensures var line := FormatLine(r, site, host, includeSd);
            && line != "" && line[|line| - 1] == '\n' && Clean(line[..|line| - 1])
            && forall i :: 0 <= i < |line| - 1 ==>
                 line[i] as int >= 32 && !(127 <= line[i] as int <= 159) && line[i] as int !in {8232, 8233}
  {
    assert Clean("-");
    hide SdField, EscapeSpec, Body, Clean, IsControl;
    EscapeIsClean(r.senderTs);
    EscapeIsClean(r.program);
    EscapeIsClean(Body(r));
    SdIsClean(r, includeSd);
    var sender := if r.senderTs != "" then EscapeSpec(r.senderTs) else "-";
    FrontIsClean(r, site, host, EscapeSpec(r.program), sender);
    var front := r.recvTs + " " + site + " " + host + " " + r.priorityText + " " + EscapeSpec(r.program) + ": ["
        + sender + "] ";
    CleanJoin(front, SdField(r, includeSd));
    CleanJoin(front + SdField(r, includeSd), EscapeSpec(Body(r)));
    var line := FormatLine(r, site, host, includeSd);
    assert line[..|line| - 1] == front + SdField(r, includeSd) + EscapeSpec(Body(r));
    CleanMeans(line[..|line| - 1]);
  }

  lemma CleanMeans(s: string)
    requires Clean(s)
    ensures forall i :: 0 <= i < |s| ==>
              s[i] as int >= 32 && !(127 <= s[i] as int <= 159) && s[i] as int !in {8232, 8233}
  {
  }

  /** What a stored line holds: its program, sender timestamp (`-` for none), structured data (only when
      asked for and not empty) and body, the raw datagram of a malformed record, all decode to what they
      were. */
  lemma LineHolds(r: SyslogRecord, site: string, host: string, includeSd: bool)
    returns (program: string, sender: string, sd: string, body: string)
    ensures FormatLine(r, site, host, includeSd)
         == r.recvTs + " " + site + " " + host + " " + r.priorityText + " " + program + ": [" + sender + "] "
              + (if includeSd && r.structuredData != "" then "SD={" + sd + "} " else "") + body + "\n"
    ensures Decode(program) == Some(r.program)
    ensures if r.senderTs == "" then sender == "-" else Decode(sender) == Some(r.senderTs)
    ensures Decode(sd) == Some(r.structuredData)
    ensures Decode(body) == Some(if r.malformed then r.raw else r.message)
  {
    program, sd, body := EscapeSpec(r.program), EscapeSpec(r.structuredData), EscapeSpec(Body(r));
    sender := if r.senderTs != "" then EscapeSpec(r.senderTs) else "-";
    EscapeRoundTrip(r.program);
    EscapeRoundTrip(r.senderTs);
    EscapeRoundTrip(r.structuredData);
    EscapeRoundTrip(Body(r));
    hide EscapeSpec, Decode;
  }
}
