/**
 The Content-Disposition header of a media file: built as the media service builds it, and read back
 by a parser for the grammar of section 4.1 of RFC 6266 and section 3.2.1 of RFC 5987.
 */
module ContentDisposition {
  import opened Basics
  import opened Utf8

  // ----- building -----

  predicate IsAlphanumeric(n: int) {
    '0' as int <= n <= '9' as int || 'A' as int <= n <= 'Z' as int || 'a' as int <= n <= 'z' as int
  }

  predicate IsGraphic(c: char) {
    '!' <= c <= '~'
  }

  predicate IsAsciiSafe(c: char) {
    IsGraphic(c) && c != '"' && c != '\\'
  }

  // attr-char of RFC 5987
  predicate IsAttrChar(n: int) {
    IsAlphanumeric(n) || n == '!' as int || n == '#' as int || n == '$' as int || n == '&' as int || n == '+' as int ||
    n == '-' as int || n == '.' as int || n == '^' as int || n == '_' as int || n == '`' as int || n == '|' as int ||
    n == '~' as int
  }

  function HexDigit(d: nat): char
    requires d < 16
  {
    if d < 10 then (d + '0' as int) as char else (d - 10 + 'A' as int) as char
  }

  function PercentByte(b: Byte): string {
    if IsAttrChar(b) then [b as char] else ['%', HexDigit(b / 16), HexDigit(b % 16)]
  }

  function PercentEncode(bytes: seq<Byte>): string {
    if bytes == [] then [] else PercentByte(bytes[0]) + PercentEncode(bytes[1..])
  }

  function AsciiPart(name: string): string {
    var safe := Filter(IsAsciiSafe, name);
    if safe == [] then "download" else safe
  }

  const INTRO := "inline; filename=\""
  const MIDDLE := "\"; filename*="
  const EXT_INTRO := "UTF-8''"

  function Header(name: string): string {
    INTRO + AsciiPart(name) + MIDDLE + EXT_INTRO + PercentEncode(Encode(name))
  }

  // The header library accepts a value of visible ASCII, spaces and tabs.
  predicate IsHeaderValue(s: string) {
    forall c :: c in s ==> ' ' <= c <= '~' || c == '\t'
  }

  predicate IsPrintable(s: string) {
    forall c :: c in s ==> ' ' <= c <= '~'
  }

  // The characters that percent-encoding leaves behind: attr-char and the percent sign.
  predicate IsValueText(s: string) {
    forall c :: c in s ==> IsAttrChar(c as int) || c == '%'
  }

  lemma {:induction false} EncodedIsValueText(bytes: seq<Byte>)
    ensures IsValueText(PercentEncode(bytes))
  {
    if bytes != [] {
      EncodedIsValueText(bytes[1..]);
    }
  }

  lemma AsciiPartIsSafe(name: string)
    ensures AsciiPart(name) != [] && forall c :: c in AsciiPart(name) ==> IsAsciiSafe(c)
  {
  }

  lemma PrintableConcat(s: string, t: string)
    requires IsPrintable(s) && IsPrintable(t)
    ensures IsPrintable(s + t)
  {
  }

  /** Every header is printable ASCII, so the fallback of the service is never taken. */
  lemma HeaderIsPrintable(name: string)
    ensures IsPrintable(Header(name))
  {
    AsciiPartIsSafe(name);
    EncodedIsValueText(Encode(name));
    var encoded := PercentEncode(Encode(name));
    assert IsPrintable(encoded);
    assert IsPrintable(INTRO) && IsPrintable(MIDDLE) && IsPrintable(EXT_INTRO);
    PrintableConcat(INTRO, AsciiPart(name));
    PrintableConcat(INTRO + AsciiPart(name), MIDDLE);
    PrintableConcat(INTRO + AsciiPart(name) + MIDDLE, EXT_INTRO);
    PrintableConcat(INTRO + AsciiPart(name) + MIDDLE + EXT_INTRO, encoded);
  }

  lemma PercentEncodeCons(b: Byte, rest: seq<Byte>)
    ensures PercentEncode([b] + rest) == PercentByte(b) + PercentEncode(rest)
  {
    assert ([b] + rest)[1..] == rest;
  }

  lemma {:induction false} PercentEncodeSnoc(bytes: seq<Byte>, b: Byte)
    ensures PercentEncode(bytes + [b]) == PercentEncode(bytes) + PercentByte(b)
  {
    if bytes == [] {
      assert bytes + [b] == [b] + [];
      PercentEncodeCons(b, []);
    } else {
      var head, tail := bytes[0], bytes[1..];
      PercentEncodeSnoc(tail, b);
      assert bytes + [b] == [head] + (tail + [b]);
      PercentEncodeCons(head, tail + [b]);
      ConcatAssoc(PercentByte(head), PercentEncode(tail), PercentByte(b));
    }
  }

  method ContentDispositionHeader(name: string) returns (value: string)
    ensures value == Header(name)
  {
    var asciiSafe := Filter(IsAsciiSafe, name);
    var asciiPart := if asciiSafe == [] then "download" else asciiSafe;
    var bytes := Encode(name);
    var encoded := "";
    for k := 0 to |bytes|
      invariant encoded == PercentEncode(bytes[..k])
    {
      var b := bytes[k];
      PercentEncodeSnoc(bytes[..k], b);
      assert bytes[..k + 1] == bytes[..k] + [b];
      if IsAttrChar(b) {
        encoded := encoded + [b as char];
      } else {
        encoded := encoded + ['%', HexDigit(b / 16), HexDigit(b % 16)];
      }
    }
    assert bytes[..|bytes|] == bytes;
    value := INTRO + asciiPart + MIDDLE + EXT_INTRO + encoded;
    HeaderIsPrintable(name);
    if !IsHeaderValue(value) {
      value := "inline; filename=\"download\"";
    }
  }

  // ----- reading: tokens, quoted strings, parameters -----

  predicate IsTokenChar(c: char) {
    IsAttrChar(c as int) || c == '%' || c == '\'' || c == '*'
  }

  predicate IsBlank(c: char) {
    c == ' ' || c == '\t'
  }

  function SkipBlanks(s: string): (r: string)
    ensures |r| <= |s|
  {
    if s != [] && IsBlank(s[0]) then SkipBlanks(s[1..]) else s
  }

  // The length of the longest token at the start.
  function TokenLength(s: string): (n: nat)
    ensures n <= |s|
  {
    if s != [] && IsTokenChar(s[0]) then 1 + TokenLength(s[1..]) else 0
  }

  // A text that was read, and what follows it.
  datatype Piece = Piece(text: string, rest: string)

  // The rest of a quoted string whose opening quote was read.
  function ReadQuoted(s: string): (r: Option<Piece>)
    ensures r.Some? ==> |r.value.rest| < |s|
  {
    if s == [] then None
    else if s[0] == '"' then Some(Piece("", s[1..]))
    else if s[0] == '\\' then
      if |s| < 2 then None
      else
        var more := ReadQuoted(s[2..]);
        if more.None? then None else Some(Piece([s[1]] + more.value.text, more.value.rest))
    else
      var more := ReadQuoted(s[1..]);
      if more.None? then None else Some(Piece([s[0]] + more.value.text, more.value.rest))
  }

  function ReadValue(s: string): (r: Option<Piece>)
    ensures r.Some? ==> |r.value.rest| < |s|
  {
    if s != [] && s[0] == '"' then ReadQuoted(s[1..])
    else
      var n := TokenLength(s);
      if n == 0 then None else Some(Piece(s[..n], s[n..]))
  }

  datatype Parameter = Parameter(name: string, value: string)

  // token "=" value, with optional blanks around the sign
  function ReadParameter(t: string): (r: Option<(Parameter, string)>)
    ensures r.Some? ==> |r.value.1| < |t|
  {
    var n := TokenLength(t);
    var u := SkipBlanks(t[n..]);
    if n == 0 || u == [] || u[0] != '=' then None
    else
      var value := ReadValue(SkipBlanks(u[1..]));
      if value.None? then None else Some((Parameter(t[..n], value.value.text), value.value.rest))
  }

  // *( ";" parameter ), with optional blanks around the separators
  function ReadParameters(s: string): Option<seq<Parameter>>
    decreases |s|
  {
    if s == [] then Some([])
    else if s[0] != ';' then None
    else
      var first := ReadParameter(SkipBlanks(s[1..]));
      if first.None? then None
      else
        var more := ReadParameters(SkipBlanks(first.value.1));
        if more.None? then None else Some([first.value.0] + more.value)
  }

  datatype Disposition = Disposition(kind: string, parameters: seq<Parameter>)

  function ReadDisposition(s: string): Option<Disposition> {
    var n := TokenLength(s);
    if n == 0 then None
    else
      var parameters := ReadParameters(SkipBlanks(s[n..]));
      if parameters.None? then None else Some(Disposition(s[..n], parameters.value))
  }

  // ----- reading: the extended value -----

  function HexValue(c: char): Option<nat> {
    if '0' <= c <= '9' then Some(c as int - '0' as int)
    else if 'A' <= c <= 'F' then Some(c as int - 'A' as int + 10)
    else if 'a' <= c <= 'f' then Some(c as int - 'a' as int + 10)
    else None
  }

  // value-chars = *( pct-encoded / attr-char )
  function PercentDecode(s: string): Option<seq<Byte>> {
    if s == [] then Some([])
    else if s[0] == '%' then
      if |s| < 3 || HexValue(s[1]).None? || HexValue(s[2]).None? then None
      else
        var more := PercentDecode(s[3..]);
        if more.None? then None else Some([HexValue(s[1]).value * 16 + HexValue(s[2]).value] + more.value)
    else if IsAttrChar(s[0] as int) then
      var more := PercentDecode(s[1..]);
      if more.None? then None else Some([s[0] as int] + more.value)
    else None
  }

  datatype ExtValue = ExtValue(charset: string, language: string, bytes: seq<Byte>)

  function UpToQuote(s: string): (r: Option<Piece>)
    ensures r.Some? ==> |r.value.rest| < |s|
  {
    if s == [] then None
    else if s[0] == '\'' then Some(Piece("", s[1..]))
    else
      var more := UpToQuote(s[1..]);
      if more.None? then None else Some(Piece([s[0]] + more.value.text, more.value.rest))
  }

  // ext-value = charset "'" [ language ] "'" value-chars
  function ReadExtValue(s: string): Option<ExtValue> {
    var charset := UpToQuote(s);
    if charset.None? then None
    else
      var language := UpToQuote(charset.value.rest);
      if language.None? then None
      else
        var bytes := PercentDecode(language.value.rest);
        if bytes.None? then None else Some(ExtValue(charset.value.text, language.value.text, bytes.value))
  }

  // ----- the round trip -----

  lemma HexRoundTrip(b: Byte)
    ensures HexValue(HexDigit(b / 16)) == Some(b / 16) && HexValue(HexDigit(b % 16)) == Some(b % 16)
  {
  }

  lemma PercentByteIsDecoded(b: Byte, rest: string, bytes: seq<Byte>)
    requires PercentDecode(rest) == Some(bytes)
    ensures PercentDecode(PercentByte(b) + rest) == Some([b] + bytes)
  {
    var s := PercentByte(b) + rest;
    assert s[|PercentByte(b)|..] == rest;
    if IsAttrChar(b) {
      assert s[0] == b as char && s[0] != '%';
    } else {
      HexRoundTrip(b);
      assert s[0] == '%' && s[1] == HexDigit(b / 16) && s[2] == HexDigit(b % 16);
      assert b == b / 16 * 16 + b % 16;
    }
  }

  /** Percent-decoding the percent-encoded bytes gives the bytes back. */
  lemma {:induction false} PercentRoundTrip(bytes: seq<Byte>)
    ensures PercentDecode(PercentEncode(bytes)) == Some(bytes)
  {
    if bytes != [] {
      PercentRoundTrip(bytes[1..]);
      PercentByteIsDecoded(bytes[0], PercentEncode(bytes[1..]), bytes[1..]);
      assert bytes == [bytes[0]] + bytes[1..];
    }
  }

  predicate EndsToken(rest: string) {
    rest == [] || !IsTokenChar(rest[0])
  }

  lemma {:induction false} TokenIsRead(token: string, rest: string)
    requires forall c :: c in token ==> IsTokenChar(c)
    requires EndsToken(rest)
    ensures TokenLength(token + rest) == |token|
    ensures (token + rest)[..|token|] == token && (token + rest)[|token|..] == rest
  {
    if token == [] {
      assert token + rest == rest;
    } else {
      TokenIsRead(token[1..], rest);
      assert (token + rest)[1..] == token[1..] + rest;
      assert token[0] in token;
    }
  }

  lemma {:induction false} QuotedIsRead(text: string, rest: string)
    requires forall c :: c in text ==> c != '"' && c != '\\'
    ensures ReadQuoted(text + "\"" + rest) == Some(Piece(text, rest))
  {
    if text == [] {
      assert (text + "\"" + rest)[1..] == rest;
    } else {
      assert text[0] in text && forall c :: c in text[1..] ==> c in text;
      QuotedIsRead(text[1..], rest);
      assert (text + "\"" + rest)[1..] == text[1..] + "\"" + rest;
      assert text == [text[0]] + text[1..];
    }
  }

  lemma {:induction false} UpToQuoteIsRead(text: string, rest: string)
    requires forall c :: c in text ==> c != '\''
    ensures UpToQuote(text + "'" + rest) == Some(Piece(text, rest))
  {
    if text == [] {
      assert (text + "'" + rest)[1..] == rest;
    } else {
      assert text[0] in text && forall c :: c in text[1..] ==> c in text;
      UpToQuoteIsRead(text[1..], rest);
      assert (text + "'" + rest)[1..] == text[1..] + "'" + rest;
      assert text == [text[0]] + text[1..];
    }
  }

  predicate IsToken(s: string) {
    s != [] && forall c :: c in s ==> IsTokenChar(c)
  }

  lemma ParameterIsRead(name: string, v: string, text: string, rest: string)
    requires IsToken(name) && v != [] && !IsBlank(v[0]) && ReadValue(v) == Some(Piece(text, rest))
    ensures ReadParameter(name + ("=" + v)) == Some((Parameter(name, text), rest))
  {
    TokenIsRead(name, "=" + v);
    assert ("=" + v)[1..] == v;
  }

  lemma BlankIsSkipped(t: string)
    requires t != [] && !IsBlank(t[0])
    ensures SkipBlanks([' '] + t) == t
  {
    assert ([' '] + t)[1..] == t;
  }

  lemma ParametersStep(t: string, p: Parameter, rest: string)
    requires t != [] && !IsBlank(t[0]) && ReadParameter(t) == Some((p, rest))
    ensures ReadParameters("; " + t) ==
            var more := ReadParameters(SkipBlanks(rest));
            if more.None? then None else Some([p] + more.value)
  {
    var s := "; " + t;
    assert s[1..] == [' '] + t;
    BlankIsSkipped(t);
  }

  lemma QuotedValueIsRead(text: string, rest: string)
    requires forall c :: c in text ==> c != '"' && c != '\\'
    ensures ReadValue("\"" + (text + "\"" + rest)) == Some(Piece(text, rest))
  {
    assert ("\"" + (text + "\"" + rest))[1..] == text + "\"" + rest;
    QuotedIsRead(text, rest);
  }

  lemma StartsWithToken(name: string, rest: string)
    requires IsToken(name)
    ensures name + rest != [] && !IsBlank((name + rest)[0])
  {
    assert name[0] in name && (name + rest)[0] == name[0];
  }

  lemma QuotedParameterIsRead(name: string, text: string, rest: string)
    requires IsToken(name)
    requires forall c :: c in text ==> c != '"' && c != '\\'
    ensures ReadParameters("; " + (name + ("=" + ("\"" + (text + "\"" + rest))))) ==
            var more := ReadParameters(SkipBlanks(rest));
            if more.None? then None else Some([Parameter(name, text)] + more.value)
  {
    var v := "\"" + (text + "\"" + rest);
    QuotedValueIsRead(text, rest);
    ParameterIsRead(name, v, text, rest);
    StartsWithToken(name, "=" + v);
    ParametersStep(name + ("=" + v), Parameter(name, text), rest);
  }

  lemma TokenValueIsRead(token: string)
    requires IsToken(token)
    ensures ReadValue(token) == Some(Piece(token, ""))
  {
    TokenIsRead(token, "");
    assert token + "" == token;
    assert token[0] in token;
  }

  lemma NoParameters()
    ensures SkipBlanks("") == "" && ReadParameters("") == Some([])
  {
  }

  lemma LastParameterStep(t: string, p: Parameter)
    requires t != [] && !IsBlank(t[0]) && ReadParameter(t) == Some((p, ""))
    ensures ReadParameters("; " + t) == Some([p])
  {
    ParametersStep(t, p, "");
    NoParameters();
    assert [p] + [] == [p];
  }

  lemma TokenParameterIsRead(name: string, token: string)
    requires IsToken(name) && IsToken(token)
    ensures ReadParameters("; " + (name + ("=" + token))) == Some([Parameter(name, token)])
  {
    var t := name + ("=" + token);
    assert token[0] in token && name[0] in name;
    assert !IsBlank(t[0]);
    assert ReadParameter(t) == Some((Parameter(name, token), "")) by {
      TokenValueIsRead(token);
      ParameterIsRead(name, token, token, "");
    }
    LastParameterStep(t, Parameter(name, token));
  }

  function ExtText(name: string): string {
    EXT_INTRO + PercentEncode(Encode(name))
  }

  lemma ExtTextIsToken(name: string)
    ensures IsToken(ExtText(name))
  {
    EncodedIsValueText(Encode(name));
    assert forall c :: c in EXT_INTRO ==> IsTokenChar(c);
  }

  lemma DispositionIsRead(kind: string, rest: string, parameters: seq<Parameter>)
    requires IsToken(kind) && rest != [] && rest[0] == ';'
    requires ReadParameters(rest) == Some(parameters)
    ensures ReadDisposition(kind + rest) == Some(Disposition(kind, parameters))
  {
    TokenIsRead(kind, rest);
  }

  // The two parameters of a header, each ready to be read.
  function SecondPart(ext: string): string {
    "; " + ("filename*" + ("=" + ext))
  }

  function FirstPart(ascii: string, second: string): string {
    "; " + ("filename" + ("=" + ("\"" + (ascii + "\"" + second))))
  }

  lemma SecondPartShape(ext: string)
    ensures SecondPart(ext) == "; filename*=" + ext
  {
    ConcatAssoc("filename*", "=", ext);
    ConcatAssoc("; ", "filename*" + "=", ext);
    assert "; " + ("filename*" + "=") == "; filename*=";
  }

  lemma FirstPartShape(ascii: string, second: string)
    ensures FirstPart(ascii, second) == "; filename=\"" + (ascii + "\"" + second)
  {
    var tail := ascii + "\"" + second;
    ConcatAssoc("=", "\"", tail);
    ConcatAssoc("filename", "=" + "\"", tail);
    ConcatAssoc("; ", "filename" + ("=" + "\""), tail);
    assert "; " + ("filename" + ("=" + "\"")) == "; filename=\"";
  }

  lemma RegroupEnd(head: string, q: string, m: string, x: string, e: string)
    ensures head + (q + m) + x + e == head + (q + (m + (x + e)))
  {
    ConcatAssoc(head + (q + m), x, e);
    ConcatAssoc(head, q + m, x + e);
    ConcatAssoc(q, m, x + e);
  }

  lemma RegroupStart(k: string, f: string, a: string, q: string, tail: string)
    ensures k + f + a + (q + tail) == k + (f + (a + q + tail))
  {
    ConcatAssoc(k + f, a, q + tail);
    ConcatAssoc(a, q, tail);
    ConcatAssoc(k, f, a + q + tail);
  }

  lemma HeaderShape(name: string)
    ensures Header(name) == "inline" + FirstPart(AsciiPart(name), SecondPart(ExtText(name)))
  {
    var a, e := AsciiPart(name), PercentEncode(Encode(name));
    assert INTRO == "inline" + "; filename=\"" && MIDDLE == "\"" + "; filename*=";
    var head := "inline" + "; filename=\"" + a;
    RegroupEnd(head, "\"", "; filename*=", EXT_INTRO, e);
    SecondPartShape(ExtText(name));
    RegroupStart("inline", "; filename=\"", a, "\"", SecondPart(ExtText(name)));
    FirstPartShape(a, SecondPart(ExtText(name)));
  }

  lemma SecondPartIsRead(ext: string)
    requires IsToken(ext)
    ensures ReadParameters(SecondPart(ext)) == Some([Parameter("filename*", ext)])
    ensures SkipBlanks(SecondPart(ext)) == SecondPart(ext)
  {
    TokenParameterIsRead("filename*", ext);
    assert SecondPart(ext)[0] == ';';
  }

  lemma FirstPartIsRead(ascii: string, second: string, p: Parameter)
    requires forall c :: c in ascii ==> c != '"' && c != '\\'
    requires SkipBlanks(second) == second && ReadParameters(second) == Some([p])
    ensures ReadParameters(FirstPart(ascii, second)) == Some([Parameter("filename", ascii), p])
  {
    var name := "filename";
    assert IsToken(name);
    QuotedParameterIsRead(name, ascii, second);
    assert [Parameter(name, ascii)] + [p] == [Parameter(name, ascii), p];
  }

  /** The grammar reads every header unambiguously: the kind, the ASCII name and the extended value. */
  lemma HeaderIsRead(name: string)
    ensures ReadDisposition(Header(name)) ==
            Some(Disposition("inline", [Parameter("filename", AsciiPart(name)), Parameter("filename*", ExtText(name))]))
  {
    AsciiPartIsSafe(name);
    ExtTextIsToken(name);
    HeaderShape(name);
    var ext := Parameter("filename*", ExtText(name));
    var parts := FirstPart(AsciiPart(name), SecondPart(ExtText(name)));
    SecondPartIsRead(ExtText(name));
    FirstPartIsRead(AsciiPart(name), SecondPart(ExtText(name)), ext);
    assert parts[0] == ';';
    DispositionIsRead("inline", parts, [Parameter("filename", AsciiPart(name)), ext]);
  }

  // What the ASCII part keeps of a name: the visible ASCII characters but quote and backslash.
  function Visible(name: string): string {
    Filter((c: char) => '!' <= c <= '~' && c != '"' && c != '\\', name)
  }

  /** For a reader without the extended value, the file is called by its visible ASCII characters. */
  lemma AsciiNameIsRead(name: string)
    ensures ReadDisposition(Header(name)).Some?
    ensures ReadDisposition(Header(name)).value.kind == "inline"
    ensures ReadDisposition(Header(name)).value.parameters[..1] ==
            [Parameter("filename", if Visible(name) == "" then "download" else Visible(name))]
  {
    HeaderIsRead(name);
    FilterAgrees(IsAsciiSafe, (c: char) => '!' <= c <= '~' && c != '"' && c != '\\', name);
  }

  const HEX := "0123456789ABCDEF"
  const MARKS := "!#$&+-.^_`|~"

  /** Letters, digits and twelve marks stand for themselves, every other byte is two capital hexadecimal digits. */
  lemma PercentByteWrites(b: Byte)
    ensures var c := b as char;
            PercentByte(b) ==
            if '0' <= c <= '9' || 'A' <= c <= 'Z' || 'a' <= c <= 'z' || c in MARKS then [c]
            else ['%', HEX[b / 16], HEX[b % 16]]
  {
    MarksAreListed(b as char);
    HexIsListed(b / 16);
    HexIsListed(b % 16);
  }

  lemma MarksAreListed(c: char)
    ensures c in MARKS <==> IsAttrChar(c as int) && !IsAlphanumeric(c as int)
  {
    assert MARKS == ['!', '#', '$', '&', '+', '-', '.', '^', '_', '`', '|', '~'];
  }

  lemma HexIsListed(d: nat)
    requires d < 16
    ensures HexDigit(d) == HEX[d]
  {
  }

  lemma ExtTextIsRead(name: string)
    ensures ReadExtValue(ExtText(name)) == Some(ExtValue("UTF-8", "", Encode(name)))
  {
    var body := PercentEncode(Encode(name));
    assert ExtText(name) == "UTF-8" + "'" + ("" + "'" + body);
    UpToQuoteIsRead("UTF-8", "" + "'" + body);
    UpToQuoteIsRead("", body);
    PercentRoundTrip(Encode(name));
  }

  // The name that a reader of the header recovers: the extended value takes precedence.
  function RecoveredName(header: string): Option<string> {
    var d := ReadDisposition(header);
    if d.None? || |d.value.parameters| != 2 || d.value.parameters[1].name != "filename*" then None
    else
      var ext := ReadExtValue(d.value.parameters[1].value);
      if ext.None? then None else Decode(ext.value.bytes)
  }

  /** Round trip: reading the header of a file gives back exactly its original name, whatever it is. */
  lemma HeaderRoundTrip(name: string)
    ensures RecoveredName(Header(name)) == Some(name)
  {
    HeaderIsRead(name);
    ExtTextIsRead(name);
    DecodeEncode(name);
  }
}
