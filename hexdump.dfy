/**
 * The `_hd` diagnostic formatter: `" ".join("%02X" % e for e in data)`, and
 * a parser for its output that serves as its inverse.
 */
module HexDump {
  import opened Wrappers
  import opened Protocol

  const HEX_DIGITS: string := "0123456789ABCDEF"

  /** `"%02X" % b`: two upper-case hexadecimal digits, high nibble first. */
  function Token(b: Byte): (t: string)
    ensures |t| == 2
  {
    [HEX_DIGITS[b / 16], HEX_DIGITS[b % 16]]
  }

  /**
   * The hex dump of `data`: one token per byte, separated by single spaces;
   * n bytes give 3n-1 characters, and no bytes give the empty string.
   */
  function Dump(data: seq<Byte>): (r: string)
    ensures |r| == if data == [] then 0 else 3 * |data| - 1
  {
    if data == [] then ""
    else if |data| == 1 then Token(data[0])
    else Token(data[0]) + " " + Dump(data[1..])
  }

  /** The i-th byte's token sits at offset 3i and, unless it is the last, is followed by a space. */
  lemma {:induction false} DumpTokenAt(data: seq<Byte>, i: nat)
    requires i < |data|
    ensures Dump(data)[3 * i..3 * i + 2] == Token(data[i])
    ensures i + 1 < |data| ==> Dump(data)[3 * i + 2] == ' '
  {
    if i > 0 {
      DumpTokenAt(data[1..], i - 1);
      var rest := Dump(data[1..]);
      assert Dump(data) == Token(data[0]) + " " + rest;
      assert Dump(data)[3 * i..3 * i + 2] == rest[3 * (i - 1)..3 * (i - 1) + 2];
    }
  }

  predicate IsHexDigit(c: char)
  {
    '0' <= c <= '9' || 'A' <= c <= 'F'
  }

  function DigitValue(c: char): (v: nat)
    requires IsHexDigit(c)
    ensures v < 16 && HEX_DIGITS[v] == c
  {
    if c <= '9' then c as int - '0' as int else c as int - 'A' as int + 10
  }

  /** Reads back a dump: `None` unless `s` is space-separated two-digit upper-case tokens. */
  function Parse(s: string): (r: Option<seq<Byte>>)
  {
    if s == "" then Some([]) else ParseTokens(s)
  }

  function ParseTokens(s: string): (r: Option<seq<Byte>>)
    decreases |s|
  {
    if |s| < 2 || !IsHexDigit(s[0]) || !IsHexDigit(s[1]) then None
    else
      var b := DigitValue(s[0]) * 16 + DigitValue(s[1]);
      if |s| == 2 then Some([b])
      else if s[2] != ' ' then None
      else match ParseTokens(s[3..])
        case None => None
        case Some(rest) => Some([b] + rest)
  }

  lemma TokenDigits(b: Byte)
    ensures IsHexDigit(Token(b)[0]) && IsHexDigit(Token(b)[1])
    ensures DigitValue(Token(b)[0]) * 16 + DigitValue(Token(b)[1]) == b
  {
    var t := Token(b);
    assert DigitValue(t[0]) == b / 16 && DigitValue(t[1]) == b % 16 by {
      assert forall v :: 0 <= v < 16 ==> IsHexDigit(HEX_DIGITS[v]) && DigitValue(HEX_DIGITS[v]) == v;
    }
  }

  /** Parsing a dump gives back the bytes that were dumped. */
  lemma {:induction false} ParseDump(data: seq<Byte>)
    ensures Parse(Dump(data)) == Some(data)
  {
    if data != [] {
      ParseTokensDump(data);
    }
  }

  lemma {:induction false} ParseTokensDump(data: seq<Byte>)
    requires data != []
    ensures ParseTokens(Dump(data)) == Some(data)
  {
    var s := Dump(data);
    TokenDigits(data[0]);
    assert s[..2] == Token(data[0]);
    if |data| == 1 {
      assert data == [data[0]];
    } else {
      ParseTokensDump(data[1..]);
      assert s == Token(data[0]) + " " + Dump(data[1..]);
      assert s[2] == ' ' && s[3..] == Dump(data[1..]);
      assert [data[0]] + data[1..] == data;
    }
  }

  /** Conversely, whatever parses is the dump of what it parses to. */
  lemma {:induction false} DumpParse(s: string, data: seq<Byte>)
    requires Parse(s) == Some(data)
    ensures Dump(data) == s
  {
    if s != "" {
      DumpParseTokens(s, data);
    }
  }

  lemma {:induction false} DumpParseTokens(s: string, data: seq<Byte>)
    requires ParseTokens(s) == Some(data)
    ensures data != [] && Dump(data) == s
    decreases |s|
  {
    var b := DigitValue(s[0]) * 16 + DigitValue(s[1]);
    assert Token(b) == s[..2] by {
      assert b / 16 == DigitValue(s[0]) && b % 16 == DigitValue(s[1]);
    }
    if |s| > 2 {
      var rest := ParseTokens(s[3..]).value;
      DumpParseTokens(s[3..], rest);
      assert data == [b] + rest;
      assert data[1..] == rest;
      assert s == s[..2] + " " + s[3..];
    }
  }
}
