/**
 The log of the Bluetooth Classic capture: what `LMP2thprint` and the launcher write, and what
 `parse_BTC_2THPRINT_2db` reads back.

 A name is logged twice: its bytes as hexadecimal words, then as it is.  The parser takes both lines through the
 same handler, so the second one must not look like the first.
 */
module BtcLog {
  import opened Bytes
  import opened LogText
  import opened Text
  import opened Wrappers

  const FIRST_WORD := "BTC_2THPRINT:"
  const NAME_OPCODE := "LMP_OP_0x02"
  const VERSION_OPCODE := "LMP_OP_0x26"
  const FEATURES_OPCODE := "LMP_OP_0x28"
  const HEADER_LINE := "BTC_2THPRINT: LOG ENTRY FOR BDADDR: "
  const DONE_LINE := "BTC_2THPRINT: ALL RESPONSES RECEIVED"
  const TIMEOUT_LINE := "BTC_2THPRINT: BDADDR "
  const TIMEOUT_TEXT := "2THPRINTING TERMINATED DUE TO 10 SEC TIMEOUT"
  const NO_ADDRESS := "NULL"
  const SINGLE_FRAGMENT := 14
  const HIGHEST_VERSION := 13

  // ---------- The printer ----------

  /** `0x%02X`: a negative `char` is widened to an int first. */
  function PrintedToken(b: Byte, asSignedChar: bool): string {
    if asSignedChar && b >= 128 then "0xFFFFFF" + HexToken(b)[2..] else HexToken(b)
  }

  function PrintedTokens(bs: seq<Byte>, asSignedChar: bool): string {
    if bs == [] then "" else PrintedToken(bs[0], asSignedChar) + " " + PrintedTokens(bs[1..], asSignedChar)
  }

  /** Names of more than one fragment are printed from `gName`, an array of `char`; others from the packet. */
  predicate PrintsSigned(name: seq<Byte>, charIsSigned: bool) {
    charIsSigned && |name| > SINGLE_FRAGMENT
  }

  datatype Response =
    | NameResponse(name: seq<Byte>)
    | VersionResponse(version: Byte, company: (Byte, Byte), subversion: (Byte, Byte))
    | FeaturesResponse(features: seq<Byte>)
    | OtherLine(line: seq<Byte>)

  predicate IsOpcode(opcode: string) {
    opcode == NAME_OPCODE || opcode == VERSION_OPCODE || opcode == FEATURES_OPCODE
  }

  function Prefix(opcode: string): string {
    FIRST_WORD + " " + opcode + " "
  }

  /** The start of a log line. */
  function PrefixBytes(opcode: string): seq<Byte>
    requires IsOpcode(opcode)
  {
    Ascii(Prefix(opcode))
  }

  function TokensAsBytes(bs: seq<Byte>, asSignedChar: bool): seq<Byte> {
    TokensAreAscii(bs, asSignedChar);
    Ascii(PrintedTokens(bs, asSignedChar))
  }

  function HexLine(opcode: string, bs: seq<Byte>, asSignedChar: bool): seq<Byte>
    requires IsOpcode(opcode)
  {
    PrefixBytes(opcode) + TokensAsBytes(bs, asSignedChar)
  }

  function FirstLine(name: seq<Byte>): seq<Byte> {
    Split(name)[0]
  }

  /** A name is logged as words and as it is, which makes further lines of a name with newlines. */
  function LinesOf(r: Response, charIsSigned: bool): seq<seq<Byte>> {
    match r
    case NameResponse(name) =>
      [HexLine(NAME_OPCODE, name, PrintsSigned(name, charIsSigned)), PrefixBytes(NAME_OPCODE) + FirstLine(name)]
      + Split(name)[1..]
    case VersionResponse(version, company, subversion) =>
      [HexLine(VERSION_OPCODE, [version, company.0, company.1, subversion.0, subversion.1], false)]
    case FeaturesResponse(features) =>
      [HexLine(FEATURES_OPCODE, features, false)]
    case OtherLine(line) => [line]
  }

  lemma {:induction false} TokensAreAscii(bs: seq<Byte>, asSignedChar: bool)
    ensures IsAscii(PrintedTokens(bs, asSignedChar))
  {
    if bs == [] {
    } else {
      TokenRoundTrip(bs[0]);
      TokensAreAscii(bs[1..], asSignedChar);
    }
  }

  lemma TokensSnoc(bs: seq<Byte>, b: Byte, asSignedChar: bool)
    ensures PrintedTokens(bs + [b], asSignedChar) ==
            PrintedTokens(bs, asSignedChar) + (PrintedToken(b, asSignedChar) + " ")
  {
    if bs != [] {
      TokensSnoc(bs[1..], b, asSignedChar);
      assert (bs + [b])[1..] == bs[1..] + [b];
      var x, y, z := PrintedToken(bs[0], asSignedChar) + " ", PrintedTokens(bs[1..], asSignedChar),
                     PrintedToken(b, asSignedChar) + " ";
      assert (x + y) + z == x + (y + z);
    } else {
      assert PrintedTokens([b][1..], asSignedChar) == "";
      assert (PrintedToken(b, asSignedChar) + " ") + "" == "" + (PrintedToken(b, asSignedChar) + " ");
    }
  }

  method PrintTokens(bs: seq<Byte>, asSignedChar: bool) returns (text: string)
    ensures text == PrintedTokens(bs, asSignedChar)
  {
    text := "";
    for i := 0 to |bs|
      invariant text == PrintedTokens(bs[..i], asSignedChar)
    {
      TokensSnoc(bs[..i], bs[i], asSignedChar);
      assert bs[..i + 1] == bs[..i] + [bs[i]];
      text := text + (PrintedToken(bs[i], asSignedChar) + " ");
    }
    assert bs[..|bs|] == bs;
  }

  // ---------- The parser ----------

  datatype Row =
    | NameRow(bdaddr: string, name: string)
    | VersionRow(bdaddr: string, version: int, company: int, subversion: int)
    | FeaturesRow(bdaddr: string, page: nat, features: int)

  /** The loop's state: the current address, the inserts so far, and whether an exception ended the parse. */
  datatype State = State(bdaddr: string, rows: seq<Row>, stopped: bool)

  predicate AllByteTokens(args: seq<string>) {
    forall i :: 0 <= i < |args| ==> IsByteToken(args[i])
  }

  function TokenBytes(args: seq<string>): (bs: seq<Byte>)
    requires AllByteTokens(args)
    ensures |bs| == |args|
  {
    seq(|args|, i requires 0 <= i < |args| => TokenByte(args[i]))
  }

  predicate SpellsName(args: seq<string>) {
    AllByteTokens(args) &&
    match Decode(TokenBytes(args)) case None => false case Some(t) => !IsBlank(t)
  }

  function NameRows(bdaddr: string, args: seq<string>): seq<Row> {
    if SpellsName(args) then [NameRow(bdaddr, Decode(TokenBytes(args)).value)] else []
  }

  function WordAt(args: seq<string>, i: nat): Option<int> {
    if i < |args| then IntBase16(args[i]) else None
  }

  /** The handler goes on after rejecting its arguments; a missing or unreadable one raises. */
  function VersionStep(s: State, args: seq<string>): State {
    match WordAt(args, 0)
    case None => s.(stopped := true)
    case Some(version) =>
      if version > HIGHEST_VERSION then s
      else if version < 0 then s.(stopped := true)
      else
        var c0, c1, s0, s1 := WordAt(args, 1), WordAt(args, 2), WordAt(args, 3), WordAt(args, 4);
        if c0.Some? && c1.Some? && s0.Some? && s1.Some? then
          s.(rows := s.rows + [VersionRow(s.bdaddr, version, BitOr(c0.value, 256 * c1.value),
                BitOr(s0.value, 256 * s1.value))])
        else s.(stopped := true)
  }

  function Folded(bs: seq<Byte>): int {
    if bs == [] then 0 else BitOr(256 * Folded(bs[1..]), bs[0])
  }

  function FeatureRows(bdaddr: string, args: seq<string>): seq<Row> {
    if AllByteTokens(args) then [FeaturesRow(bdaddr, 0, Folded(TokenBytes(args)))] else []
  }

  /** The text after the last ": " that starts before position k - 1. */
  function AfterLastColon(t: string, k: nat): string
    requires k <= |t|
  {
    if k < 2 then t else if t[k - 2] == ':' && t[k - 1] == ' ' then t[k..] else AfterLastColon(t, k - 1)
  }

  predicate Contains(t: string, part: string) {
    part <= t || (t != "" && Contains(t[1..], part))
  }

  function Address(bdaddr: string, line: string): string {
    if HEADER_LINE <= line then Strip(AfterLastColon(line, |line|))
    else if DONE_LINE <= line then NO_ADDRESS
    else if TIMEOUT_LINE <= line && Contains(line, TIMEOUT_TEXT) then NO_ADDRESS
    else bdaddr
  }

  function Handle(s: State, words: seq<string>): State {
    if |words| < 2 then s
    else if words[1] == NAME_OPCODE then s.(rows := s.rows + NameRows(s.bdaddr, words[2..]))
    else if words[1] == VERSION_OPCODE then VersionStep(s, words[2..])
    else if words[1] == FEATURES_OPCODE then s.(rows := s.rows + FeatureRows(s.bdaddr, words[2..]))
    else s
  }

  function Step(s: State, line: seq<Byte>): State {
    if s.stopped then s
    else
      match Decode(line)
      case None => s
      case Some(text) =>
        var s1 := s.(bdaddr := Address(s.bdaddr, text));
        if s1.bdaddr == NO_ADDRESS then s1 else Handle(s1, Words(text))
  }

  function Run(s: State, lines: seq<seq<Byte>>): State
    decreases |lines|
  {
    if lines == [] then s else Run(Step(s, lines[0]), lines[1..])
  }

  function Parsed(file: seq<Byte>): State {
    Run(State(NO_ADDRESS, [], false), Lines(file))
  }

  lemma StartsWith0x(t: string)
    ensures "0x" <= t <==> |t| >= 2 && t[0] == '0' && t[1] == 'x'
  {
    if |t| >= 2 {
      assert t[..2] == [t[0], t[1]];
    }
  }

  /** The parser's globals; `rows` stands for the inserts it commits. */
  class Parser {
    var bdaddr: string
    var rows: seq<Row>

    constructor ()
      ensures View(false) == State(NO_ADDRESS, [], false)
    {
      bdaddr, rows := NO_ADDRESS, [];
    }

    function View(raised: bool): State
      reads this
    {
      State(bdaddr, rows, raised)
    }

    static method CheckArgs(args: seq<string>) returns (ok: bool)
      ensures ok <==> AllByteTokens(args)
    {
      for i := 0 to |args|
        invariant AllByteTokens(args[..i])
      {
        StartsWith0x(args[i]);
        if |args[i]| != 4 || !("0x" <= args[i]) || !IsUpperDigit(args[i][2]) || !IsUpperDigit(args[i][3]) {
          return false;
        }
      }
      assert args[..|args|] == args;
      return true;
    }

    static method PrintString(args: seq<string>) returns (name: Option<string>)
      requires AllByteTokens(args)
      ensures name == Decode(TokenBytes(args))
    {
      var byteValues: seq<Byte> := [];
      for i := 0 to |args|
        invariant byteValues == TokenBytes(args)[..i]
      {
        TokenIsRead(args[i]);
        byteValues := byteValues + [IntBase16(args[i]).value];
      }
      assert byteValues == TokenBytes(args);
      name := Decode(byteValues);
    }

    method FuncName(args: seq<string>)
      modifies this
      ensures View(false) == old(View(false)).(rows := old(rows) + NameRows(old(bdaddr), args))
    {
      var ok := CheckArgs(args);
      if ok {
        var name := PrintString(args);
        if name.Some? && !IsBlank(name.value) {
          rows := rows + [NameRow(bdaddr, name.value)];
        }
      }
      assert old(rows) + [] == old(rows);
    }

    method FuncVersion(args: seq<string>) returns (raised: bool)
      modifies this
      ensures View(raised) == VersionStep(old(View(false)), args)
    {
      if |args| == 0 || IntBase16(args[0]).None? {
        return true;
      }
      var version := IntBase16(args[0]).value;
      if version > HIGHEST_VERSION {
        return false;
      }
      if version < 0 {
        return true;
      }
      if |args| < 3 || IntBase16(args[1]).None? || IntBase16(args[2]).None? {
        return true;
      }
      var company := BitOr(IntBase16(args[1]).value, 256 * IntBase16(args[2]).value);
      if |args| < 5 || IntBase16(args[3]).None? || IntBase16(args[4]).None? {
        return true;
      }
      var subversion := BitOr(IntBase16(args[3]).value, 256 * IntBase16(args[4]).value);
      rows := rows + [VersionRow(bdaddr, version, company, subversion)];
      raised := false;
    }

    method FuncFeatures(args: seq<string>)
      modifies this
      ensures View(false) == old(View(false)).(rows := old(rows) + FeatureRows(old(bdaddr), args))
    {
      var ok := CheckArgs(args);
      if ok {
        var features, i := 0, |args|;
        while i > 0
          invariant 0 <= i <= |args|
          invariant features == Folded(TokenBytes(args)[i..])
          modifies {}
        {
          i := i - 1;
          TokenIsRead(args[i]);
          assert TokenBytes(args)[i..][1..] == TokenBytes(args)[i + 1..];
          features := BitOr(256 * features, IntBase16(args[i]).value);
        }
        assert TokenBytes(args)[i..] == TokenBytes(args);
        assert features == Folded(TokenBytes(args));
        rows := rows + [FeaturesRow(bdaddr, 0, features)];
      } else {
        assert rows + [] == rows;
      }
    }

    method ParseLine(line: seq<Byte>) returns (raised: bool)
      modifies this
      ensures View(raised) == Step(old(View(false)), line)
    {
      raised := false;
      var decoded := Decode(line);
      if decoded.None? {
        return;
      }
      bdaddr := Address(bdaddr, decoded.value);
      if bdaddr == NO_ADDRESS {
        return;
      }
      var tokens := Words(decoded.value);
      if |tokens| >= 2 {
        if tokens[1] == NAME_OPCODE {
          FuncName(tokens[2..]);
        } else if tokens[1] == VERSION_OPCODE {
          raised := FuncVersion(tokens[2..]);
        } else if tokens[1] == FEATURES_OPCODE {
          FuncFeatures(tokens[2..]);
        }
      }
    }

    method ParseFile(file: seq<Byte>) returns (raised: bool)
      modifies this
      ensures View(raised) == Run(old(View(false)), Lines(file))
    {
      raised := false;
      var lines := Lines(file);
      for i := 0 to |lines|
        invariant !raised && Run(View(false), lines[i..]) == Run(old(View(false)), lines)
      {
        assert lines[i..][1..] == lines[i + 1..];
        raised := ParseLine(lines[i]);
        if raised {
          Stopped(View(true), lines[i + 1..]);
          return;
        }
      }
    }
  }

  lemma {:induction false} Stopped(s: State, lines: seq<seq<Byte>>)
    requires s.stopped
    ensures Run(s, lines) == s
  {
    if lines == [] {
    } else {
      Stopped(s, lines[1..]);
    }
  }

  // ---------- One line read back ----------

  function TokenList(bs: seq<Byte>, asSignedChar: bool): (words: seq<string>)
    ensures |words| == |bs|
  {
    seq(|bs|, i requires 0 <= i < |bs| => PrintedToken(bs[i], asSignedChar))
  }

  lemma TokenIsWord(b: Byte, asSignedChar: bool)
    ensures IsWord(PrintedToken(b, asSignedChar))
    ensures IsByteToken(PrintedToken(b, asSignedChar)) <==> !(asSignedChar && b >= 128)
  {
    TokenRoundTrip(b);
  }

  lemma TokenListCons(bs: seq<Byte>, asSignedChar: bool)
    requires bs != []
    ensures TokenList(bs, asSignedChar) == [PrintedToken(bs[0], asSignedChar)] + TokenList(bs[1..], asSignedChar)
  {
  }

  lemma {:induction false} TokensAreWords(bs: seq<Byte>, asSignedChar: bool)
    ensures Words(PrintedTokens(bs, asSignedChar)) == TokenList(bs, asSignedChar)
  {
    if bs == [] {
    } else {
      TokensAreWords(bs[1..], asSignedChar);
      TokenIsWord(bs[0], asSignedChar);
      TokenListCons(bs, asSignedChar);
      hide PrintedToken, IsWord, TokenList, Words;
      WordThenSpace(PrintedToken(bs[0], asSignedChar), PrintedTokens(bs[1..], asSignedChar));
    }
  }

  lemma TokensSpellBytes(bs: seq<Byte>)
    ensures AllByteTokens(TokenList(bs, false)) && TokenBytes(TokenList(bs, false)) == bs
  {
    forall i | 0 <= i < |bs|
      ensures IsByteToken(TokenList(bs, false)[i]) && TokenByte(TokenList(bs, false)[i]) == bs[i]
    {
      TokenRoundTrip(bs[i]);
    }
  }

  lemma OpcodeIsWord(opcode: string)
    requires IsOpcode(opcode)
    ensures IsWord(opcode) && IsWord(FIRST_WORD) && opcode[0] == 'L' && opcode[1] == 'M'
  {
  }

  lemma PrefixWords(opcode: string, rest: string)
    requires IsOpcode(opcode)
    ensures Words(Prefix(opcode) + rest) == [FIRST_WORD, opcode] + Words(rest)
  {
    OpcodeIsWord(opcode);
    hide IsWord, Words;
    assert Prefix(opcode) + rest == FIRST_WORD + " " + (opcode + " " + rest);
    WordThenSpace(FIRST_WORD, opcode + " " + rest);
    WordThenSpace(opcode, rest);
  }

  lemma PrefixKeepsAddress(bdaddr: string, opcode: string, rest: string)
    requires IsOpcode(opcode)
    ensures Address(bdaddr, Prefix(opcode) + rest) == bdaddr
  {
    OpcodeIsWord(opcode);
    var text := Prefix(opcode) + rest;
    assert text[14] == opcode[0] && text[15] == opcode[1];
    assert HEADER_LINE[15] == 'O' && DONE_LINE[14] == 'A' && TIMEOUT_LINE[14] == 'B';
  }

  lemma PrefixDecodes(opcode: string, rest: seq<Byte>)
    requires IsOpcode(opcode)
    ensures Decode(PrefixBytes(opcode) + rest) ==
            match Decode(rest) case None => None case Some(t) => Some(Prefix(opcode) + t)
  {
    DecodeAscii(Prefix(opcode), rest);
  }

  /** A response line only reaches its handler. */
  lemma ResponseLineStep(s: State, opcode: string, rest: seq<Byte>)
    requires IsOpcode(opcode) && !s.stopped && s.bdaddr != NO_ADDRESS
    ensures Step(s, PrefixBytes(opcode) + rest) ==
            match Decode(rest) case None => s case Some(t) => Handle(s, [FIRST_WORD, opcode] + Words(t))
  {
    hide Decode, Words, Address, PrefixBytes, IsOpcode, Prefix, Handle;
    PrefixDecodes(opcode, rest);
    if Decode(rest).Some? {
      PrefixWords(opcode, Decode(rest).value);
      PrefixKeepsAddress(s.bdaddr, opcode, Decode(rest).value);
    }
  }

  lemma TokensDecode(bs: seq<Byte>, asSignedChar: bool)
    ensures Decode(TokensAsBytes(bs, asSignedChar)) == Some(PrintedTokens(bs, asSignedChar))
  {
    var tokens := PrintedTokens(bs, asSignedChar);
    TokensAreAscii(bs, asSignedChar);
    hide PrintedTokens;
    DecodeAscii(tokens, []);
    assert Ascii(tokens) + [] == Ascii(tokens) && tokens + "" == tokens;
  }

  lemma HexLineStep(s: State, opcode: string, bs: seq<Byte>, asSignedChar: bool)
    requires IsOpcode(opcode) && !s.stopped && s.bdaddr != NO_ADDRESS
    ensures Step(s, HexLine(opcode, bs, asSignedChar)) == Handle(s, [FIRST_WORD, opcode] + TokenList(bs, asSignedChar))
  {
    hide Decode, Words, Step, Handle, IsOpcode, TokenList, TokensAsBytes, PrefixBytes;
    TokensDecode(bs, asSignedChar);
    ResponseLineStep(s, opcode, TokensAsBytes(bs, asSignedChar));
    TokensAreWords(bs, asSignedChar);
  }

  // ---------- A name read back ----------

  predicate Plain(name: seq<Byte>) {
    forall i :: 0 <= i < |name| ==> name[i] < 128
  }

  /** The bytes come back as text: well-formed, not blank, and printed without sign extension. */
  predicate Legible(name: seq<Byte>, charIsSigned: bool) {
    && (match Decode(name) case None => false case Some(t) => !IsBlank(t))
    && (charIsSigned && |name| > 14 ==> Plain(name))
  }

  /** The name itself reads as hexadecimal words that spell another name. */
  predicate Mimics(name: seq<Byte>) {
    Decode(name).Some? && SpellsName(Words(Decode(name).value))
  }

  /** The row of the words in a plain line, if they spell a name. */
  function MimicRows(bdaddr: string, line: seq<Byte>): seq<Row> {
    if Mimics(line) then NameRows(bdaddr, Words(Decode(line).value)) else []
  }

  function RowsOfName(bdaddr: string, name: seq<Byte>, charIsSigned: bool): seq<Row> {
    (if Legible(name, charIsSigned) then [NameRow(bdaddr, Decode(name).value)] else [])
    + MimicRows(bdaddr, FirstLine(name))
  }

  /** The further lines of a name with newlines, if any, are of kinds the parser passes over. */
  predicate QuietName(name: seq<Byte>) {
    forall i :: 1 <= i < |Split(name)| ==> Ignorable(Split(name)[i])
  }

  lemma TokensOfName(bdaddr: string, name: seq<Byte>, charIsSigned: bool)
    ensures NameRows(bdaddr, TokenList(name, PrintsSigned(name, charIsSigned))) ==
            if Legible(name, charIsSigned) then [NameRow(bdaddr, Decode(name).value)] else []
  {
    hide Decode, IsBlank;
    var signed := PrintsSigned(name, charIsSigned);
    if signed && !Plain(name) {
      var i :| 0 <= i < |name| && name[i] >= 128;
      TokenIsWord(name[i], true);
      assert !IsByteToken(TokenList(name, signed)[i]);
    } else {
      assert TokenList(name, signed) == TokenList(name, false);
      TokensSpellBytes(name);
    }
  }

  lemma NameHexStep(s: State, name: seq<Byte>, charIsSigned: bool)
    requires !s.stopped && s.bdaddr != NO_ADDRESS
    ensures Step(s, HexLine(NAME_OPCODE, name, PrintsSigned(name, charIsSigned))) ==
            s.(rows := s.rows + NameRows(s.bdaddr, TokenList(name, PrintsSigned(name, charIsSigned))))
  {
    hide Step, NameRows, TokenList, HexLine;
    HexLineStep(s, NAME_OPCODE, name, PrintsSigned(name, charIsSigned));
    var words := TokenList(name, PrintsSigned(name, charIsSigned));
    assert ([FIRST_WORD, NAME_OPCODE] + words)[2..] == words;
  }

  lemma NamePlainStep(s: State, name: seq<Byte>)
    requires !s.stopped && s.bdaddr != NO_ADDRESS
    ensures Step(s, PrefixBytes(NAME_OPCODE) + name) ==
            s.(rows := s.rows + MimicRows(s.bdaddr, name))
  {
    hide Decode, Words, Step, SpellsName, PrefixBytes;
    ResponseLineStep(s, NAME_OPCODE, name);
    assert s.rows + [] == s.rows;
    if Decode(name).Some? {
      var words := Words(Decode(name).value);
      assert ([FIRST_WORD, NAME_OPCODE] + words)[2..] == words;
    }
  }

  lemma NameLines(s: State, name: seq<Byte>, charIsSigned: bool)
    requires !s.stopped && s.bdaddr != NO_ADDRESS && QuietName(name)
    ensures Run(s, LinesOf(NameResponse(name), charIsSigned)) ==
            s.(rows := s.rows + RowsOfName(s.bdaddr, name, charIsSigned))
  {
    hide Step, NameRows, MimicRows, HexLine, PrefixBytes, Legible, TokenList, Decode, Words, Split, Run, Ignorable;
    TokensOfName(s.bdaddr, name, charIsSigned);
    NameHexStep(s, name, charIsSigned);
    var hex := HexLine(NAME_OPCODE, name, PrintsSigned(name, charIsSigned));
    var plain, more := PrefixBytes(NAME_OPCODE) + FirstLine(name), Split(name)[1..];
    var s1 := Step(s, hex);
    NamePlainStep(s1, FirstLine(name));
    OneStep(s, hex);
    OneStep(s1, plain);
    assert [hex, plain] == [hex] + [plain];
    RunAppend(s, [hex], [plain]);
    RunAppend(s, [hex, plain], more);
    IgnorableRun(Step(s1, plain), more);
  }

  /** A second name that the first one spells is shorter, so never the same. */
  lemma MimicIsShorter(bdaddr: string, name: seq<Byte>)
    requires Mimics(name)
    ensures var rows := NameRows(bdaddr, Words(Decode(name).value));
            |rows| == 1 && rows[0].NameRow? && |rows[0].name| < |Decode(name).value|
  {
    var words := Words(Decode(name).value);
    DecodedIsNoLonger(TokenBytes(words));
    hide Words, Decode;
    WordsFit(Decode(name).value);
    assert !IsBlank(Decode(TokenBytes(words)).value);
  }

  // ---------- Lines the parser passes over ----------

  lemma OneStep(s: State, line: seq<Byte>)
    ensures Run(s, [line]) == Step(s, line) && Run(s, []) == s
  {
    var lines := [line];
    assert lines[0] == line && lines[1..] == [];
    assert Run(s, lines) == Run(Step(s, lines[0]), lines[1..]);
  }

  /** No header, no end of a session, and no opcode with a handler; undecodable lines are among them. */
  predicate Ignorable(line: seq<Byte>) {
    NEWLINE !in line &&
    match Decode(line)
    case None => true
    case Some(text) =>
      && !(HEADER_LINE <= text) && !(DONE_LINE <= text) && !(TIMEOUT_LINE <= text)
      && (|Words(text)| >= 2 ==> !IsOpcode(Words(text)[1]))
  }

  lemma IgnorableStep(s: State, line: seq<Byte>)
    requires Ignorable(line)
    ensures Step(s, line) == s
  {
  }

  lemma {:induction false} IgnorableRun(s: State, lines: seq<seq<Byte>>)
    requires forall i :: 0 <= i < |lines| ==> Ignorable(lines[i])
    ensures Run(s, lines) == s
  {
    if lines == [] {
    } else {
      assert Ignorable(lines[0]);
      IgnorableStep(s, lines[0]);
      IgnorableRun(s, lines[1..]);
    }
  }

  /** Outside a session everything but a header is passed over. */
  predicate Idle(line: seq<Byte>) {
    NEWLINE !in line && match Decode(line) case None => true case Some(text) => !(HEADER_LINE <= text)
  }

  lemma {:induction false} IdleRun(s: State, lines: seq<seq<Byte>>)
    requires s.bdaddr == NO_ADDRESS && forall i :: 0 <= i < |lines| ==> Idle(lines[i])
    ensures Run(s, lines) == s && NoNewlines(lines)
  {
    if lines == [] {
    } else {
      assert Idle(lines[0]);
      assert Step(s, lines[0]) == s;
      IdleRun(s, lines[1..]);
      assert forall i :: 1 <= i < |lines| ==> lines[i] == lines[1..][i - 1];
    }
  }

  function Tagged(word: string, rest: string): string {
    FIRST_WORD + " " + word + " " + rest
  }

  lemma TaggedWords(word: string, rest: string)
    requires IsWord(word)
    ensures Words(Tagged(word, rest)) == [FIRST_WORD, word] + Words(rest)
  {
    assert IsWord(FIRST_WORD);
    hide IsWord, Words;
    assert Tagged(word, rest) == FIRST_WORD + " " + (word + " " + rest);
    WordThenSpace(FIRST_WORD, word + " " + rest);
    WordThenSpace(word, rest);
  }

  lemma TaggedAppend(word: string, rest: string, tail: string)
    ensures Tagged(word, rest) + tail == Tagged(word, rest + tail)
  {
  }

  lemma HeaderIsTagged()
    ensures HEADER_LINE == Tagged("LOG", "ENTRY FOR BDADDR: ") && IsWord("LOG")
  {
  }

  lemma DoneIsTagged()
    ensures DONE_LINE == Tagged("ALL", "RESPONSES RECEIVED") && IsWord("ALL")
  {
  }

  lemma TimeoutIsTagged()
    ensures TIMEOUT_LINE == Tagged("BDADDR", "") && IsWord("BDADDR")
  {
  }

  lemma SecondWord(text: string, line: string, word: string, rest: string)
    requires line <= text && line == Tagged(word, rest) && IsWord(word)
    ensures |Words(text)| >= 2 && Words(text)[1] == word
  {
    hide Words, IsWord, Tagged;
    var tail := text[|line|..];
    assert text == line + tail;
    TaggedAppend(word, rest, tail);
    TaggedWords(word, rest + tail);
  }

  /** The three lines that matter to the address are told apart by their second word. */
  lemma SecondWords(text: string)
    ensures HEADER_LINE <= text ==> |Words(text)| >= 2 && Words(text)[1] == "LOG"
    ensures DONE_LINE <= text ==> |Words(text)| >= 2 && Words(text)[1] == "ALL"
    ensures TIMEOUT_LINE <= text ==> |Words(text)| >= 2 && Words(text)[1] == "BDADDR"
  {
    hide Words, IsWord, Tagged;
    HeaderIsTagged();
    DoneIsTagged();
    TimeoutIsTagged();
    if HEADER_LINE <= text {
      SecondWord(text, HEADER_LINE, "LOG", "ENTRY FOR BDADDR: ");
    }
    if DONE_LINE <= text {
      SecondWord(text, DONE_LINE, "ALL", "RESPONSES RECEIVED");
    }
    if TIMEOUT_LINE <= text {
      SecondWord(text, TIMEOUT_LINE, "BDADDR", "");
    }
  }

  /** So a line of the log with any other second word is passed over, whatever comes after it. */
  lemma TaggedIsIgnorable(word: string, rest: string, line: seq<Byte>)
    requires IsWord(word) && !IsOpcode(word) && word != "LOG" && word != "ALL" && word != "BDADDR"
    requires NEWLINE !in line && (Decode(line).None? || Decode(line) == Some(Tagged(word, rest)))
    ensures Ignorable(line)
  {
    if Decode(line).Some? {
      hide Words, IsWord, IsOpcode, Tagged, Decode;
      var text := Tagged(word, rest);
      TaggedWords(word, rest);
      SecondWords(text);
    }
  }

  // ---------- A file read back ----------

  function FileOf(lines: seq<seq<Byte>>): seq<Byte> {
    if lines == [] then [] else lines[0] + [NEWLINE] + FileOf(lines[1..])
  }

  predicate NoNewlines(lines: seq<seq<Byte>>) {
    forall i :: 0 <= i < |lines| ==> NEWLINE !in lines[i]
  }

  lemma {:induction false} LinesOfFile(lines: seq<seq<Byte>>)
    requires NoNewlines(lines)
    ensures Lines(FileOf(lines)) == lines
  {
    if lines == [] {
    } else {
      LinesOfFile(lines[1..]);
      LinesCons(lines[0], FileOf(lines[1..]));
    }
  }

  lemma {:induction false} RunAppend(s: State, xs: seq<seq<Byte>>, ys: seq<seq<Byte>>)
    ensures Run(s, xs + ys) == Run(Run(s, xs), ys)
    decreases |xs|
  {
    if xs == [] {
      assert xs + ys == ys;
    } else {
      assert (xs + ys)[0] == xs[0] && (xs + ys)[1..] == xs[1..] + ys;
      RunAppend(Step(s, xs[0]), xs[1..], ys);
    }
  }

  lemma AsciiHasNoNewline(t: string)
    requires IsAscii(t) && '\n' !in t
    ensures NEWLINE !in Ascii(t)
  {
    forall i | 0 <= i < |t| ensures Ascii(t)[i] != NEWLINE {
      assert t[i] in t && t[i] != '\n';
    }
  }

  lemma {:induction false} TokensHaveNoNewline(bs: seq<Byte>, asSignedChar: bool)
    ensures '\n' !in PrintedTokens(bs, asSignedChar)
  {
    if bs == [] {
    } else {
      hide PrintedToken;
      TokensHaveNoNewline(bs[1..], asSignedChar);
      TokenIsWord(bs[0], asSignedChar);
    }
  }

  lemma HexLineHasNoNewline(opcode: string, bs: seq<Byte>, asSignedChar: bool)
    requires IsOpcode(opcode)
    ensures NEWLINE !in HexLine(opcode, bs, asSignedChar)
  {
    PrefixHasNoNewline(opcode);
    TokensAreAscii(bs, asSignedChar);
    TokensHaveNoNewline(bs, asSignedChar);
    AsciiHasNoNewline(PrintedTokens(bs, asSignedChar));
  }

  /** A name whose further lines, or a line of another kind that, the parser passes over. */
  predicate Quiet(r: Response) {
    match r
    case NameResponse(name) => QuietName(name)
    case OtherLine(line) => Ignorable(line)
    case _ => true
  }

  lemma PrefixHasNoNewline(opcode: string)
    requires IsOpcode(opcode)
    ensures NEWLINE !in PrefixBytes(opcode)
  {
  }

  /** Even a name with newlines is logged in lines. */
  lemma NameHasNoNewlines(name: seq<Byte>, charIsSigned: bool)
    ensures NoNewlines(LinesOf(NameResponse(name), charIsSigned))
  {
    hide PrefixBytes, HexLine, Split;
    PrefixHasNoNewline(NAME_OPCODE);
    HexLineHasNoNewline(NAME_OPCODE, name, PrintsSigned(name, charIsSigned));
    forall i | 0 <= i < |Split(name)| ensures NEWLINE !in Split(name)[i] {
      SplitHasNoNewlines(name, i);
    }
  }

  lemma FileOfCons(line: seq<Byte>, lines: seq<seq<Byte>>)
    ensures FileOf([line] + lines) == line + [NEWLINE] + FileOf(lines)
  {
    assert ([line] + lines)[1..] == lines;
  }

  lemma SplitStep(bs: seq<Byte>)
    ensures var k := LineLength(bs);
            Split(bs) == if k == |bs| then [bs] else [bs[..k]] + Split(bs[k + 1..])
  {
    hide LineLength;
  }

  lemma Around(bs: seq<Byte>, k: nat)
    requires k < |bs| && bs[k] == NEWLINE
    ensures bs == bs[..k] + [NEWLINE] + bs[k + 1..]
  {
  }

  lemma {:induction false} SplitJoins(bs: seq<Byte>)
    ensures FileOf(Split(bs)) == bs + [NEWLINE]
  {
    hide Split, LineLength, FileOf;
    SplitStep(bs);
    var k := LineLength(bs);
    if k == |bs| {
      FileOfOne(bs);
    } else {
      var first, rest := bs[..k], bs[k + 1..];
      SplitJoins(rest);
      FileOfCons(first, Split(rest));
      Around(bs, k);
      JoinedByNewline(first, rest);
    }
  }

  lemma FileOfOne(line: seq<Byte>)
    ensures FileOf([line]) == line + [NEWLINE]
  {
    FileOfCons(line, []);
    assert [line] + [] == [line];
  }

  lemma JoinedByNewline(first: seq<Byte>, rest: seq<Byte>)
    ensures first + [NEWLINE] + (rest + [NEWLINE]) == first + [NEWLINE] + rest + [NEWLINE]
  {
  }

  lemma Prefixed(p: seq<Byte>, line: seq<Byte>, rest: seq<Byte>)
    ensures (p + line) + [NEWLINE] + rest == p + (line + [NEWLINE] + rest)
  {
  }

  /** Putting a prefix before the first line of a file. */
  lemma PrefixedFile(p: seq<Byte>, ls: seq<seq<Byte>>)
    requires ls != []
    ensures FileOf([p + ls[0]] + ls[1..]) == p + FileOf(ls)
  {
    assert ls == [ls[0]] + ls[1..];
    hide FileOf;
    FileOfCons(ls[0], ls[1..]);
    FileOfCons(p + ls[0], ls[1..]);
    Prefixed(p, ls[0], FileOf(ls[1..]));
  }

  lemma LastLine(p: seq<Byte>, name: seq<Byte>)
    ensures p + (name + [NEWLINE]) == p + name + [NEWLINE]
  {
  }

  lemma NamePrefix()
    ensures IsAscii("BTC_2THPRINT: LMP_OP_0x02 ") && PrefixBytes(NAME_OPCODE) == Ascii("BTC_2THPRINT: LMP_OP_0x02 ")
  {
    assert Prefix(NAME_OPCODE) == "BTC_2THPRINT: LMP_OP_0x02 ";
  }

  lemma VersionPrefix()
    ensures IsAscii("BTC_2THPRINT: LMP_OP_0x26 ")
    ensures PrefixBytes(VERSION_OPCODE) == Ascii("BTC_2THPRINT: LMP_OP_0x26 ")
  {
    assert Prefix(VERSION_OPCODE) == "BTC_2THPRINT: LMP_OP_0x26 ";
  }

  lemma FeaturesPrefix()
    ensures IsAscii("BTC_2THPRINT: LMP_OP_0x28 ")
    ensures PrefixBytes(FEATURES_OPCODE) == Ascii("BTC_2THPRINT: LMP_OP_0x28 ")
  {
    assert Prefix(FEATURES_OPCODE) == "BTC_2THPRINT: LMP_OP_0x28 ";
  }

  /** The bytes the module writes for a name. */
  lemma NameIsWritten(name: seq<Byte>, charIsSigned: bool)
    ensures IsAscii("BTC_2THPRINT: LMP_OP_0x02 ")
    ensures var p := Ascii("BTC_2THPRINT: LMP_OP_0x02 ");
            LogOf(NameResponse(name), charIsSigned) ==
            (p + TokensAsBytes(name, charIsSigned && |name| > 14)) + [10] + (p + name + [10])
  {
    hide PrefixBytes, TokensAsBytes, Split, FileOf, Ascii, IsAscii;
    NamePrefix();
    var hex := HexLine(NAME_OPCODE, name, PrintsSigned(name, charIsSigned));
    var ls, p := Split(name), PrefixBytes(NAME_OPCODE);
    assert LinesOf(NameResponse(name), charIsSigned) == [hex] + ([p + ls[0]] + ls[1..]);
    SplitJoins(name);
    PrefixedFile(p, ls);
    FileOfCons(hex, [p + ls[0]] + ls[1..]);
    LastLine(p, name);
  }

  /** The lines the module writes for the version and the features. */
  lemma OthersAreWritten(version: Byte, company: (Byte, Byte), subversion: (Byte, Byte), features: seq<Byte>,
        charIsSigned: bool)
    ensures IsAscii("BTC_2THPRINT: LMP_OP_0x26 ") && IsAscii("BTC_2THPRINT: LMP_OP_0x28 ")
    ensures LogOf(VersionResponse(version, company, subversion), charIsSigned) ==
            Ascii("BTC_2THPRINT: LMP_OP_0x26 ")
            + TokensAsBytes([version, company.0, company.1, subversion.0, subversion.1], false) + [10]
    ensures LogOf(FeaturesResponse(features), charIsSigned) ==
            Ascii("BTC_2THPRINT: LMP_OP_0x28 ") + TokensAsBytes(features, false) + [10]
  {
    hide PrefixBytes, TokensAsBytes, FileOf, Ascii, IsAscii;
    VersionPrefix();
    FeaturesPrefix();
    FileOfOne(HexLine(VERSION_OPCODE, [version, company.0, company.1, subversion.0, subversion.1], false));
    FileOfOne(HexLine(FEATURES_OPCODE, features, false));
  }

  /** The words of the bytes, five characters each: 0x, two upper-case digits and a space. */
  lemma {:induction false} TokensAreWritten(bs: seq<Byte>, i: nat)
    requires i < |bs|
    ensures |PrintedTokens(bs, false)| == 5 * |bs|
    ensures PrintedTokens(bs, false)[5 * i..5 * i + 5] ==
            ['0', 'x', "0123456789ABCDEF"[bs[i] / 16], "0123456789ABCDEF"[bs[i] % 16], ' ']
  {
    TokenIsWritten(bs[0]);
    var first, rest := HexToken(bs[0]) + " ", PrintedTokens(bs[1..], false);
    assert PrintedTokens(bs, false) == first + rest && |first| == 5;
    if |bs| > 1 {
      TokensAreWritten(bs[1..], if i == 0 then 0 else i - 1);
    }
    if i > 0 {
      assert (first + rest)[5 * i..5 * i + 5] == rest[5 * (i - 1)..5 * (i - 1) + 5];
    }
  }

  lemma ResponseHasNoNewlines(r: Response, charIsSigned: bool)
    requires Quiet(r)
    ensures NoNewlines(LinesOf(r, charIsSigned))
  {
    hide PrefixBytes, HexLine;
    match r {
      case NameResponse(name) =>
        NameHasNoNewlines(name, charIsSigned);
      case VersionResponse(v, c, u) =>
        HexLineHasNoNewline(VERSION_OPCODE, [v, c.0, c.1, u.0, u.1], false);
      case FeaturesResponse(features) =>
        HexLineHasNoNewline(FEATURES_OPCODE, features, false);
      case OtherLine(line) =>
    }
  }

  function LogOf(r: Response, charIsSigned: bool): seq<Byte> {
    FileOf(LinesOf(r, charIsSigned))
  }

  /** In the session of an address, this part of the log gives one row: that name. */
  predicate ReadsAs(bdaddr: string, file: seq<Byte>, name: Option<string>) {
    name.Some? && Run(State(bdaddr, [], false), Lines(file)).rows == [NameRow(bdaddr, name.value)]
  }

  lemma FirstLineIsNoLonger(name: seq<Byte>)
    ensures Decode(name).Some? ==>
              Decode(FirstLine(name)).Some? && |Decode(FirstLine(name)).value| <= |Decode(name).value|
  {
    var k := LineLength(name);
    if k < |name| {
      DecodedUpToNewline(name, k);
    }
  }

  /**
   A name whose further lines are passed over comes back, once and as itself, exactly when it is legible and its
   first line does not mimic hex words.
   */
  lemma NameComesBackExactly(bdaddr: string, name: seq<Byte>, charIsSigned: bool)
    requires bdaddr != "NULL" && QuietName(name)
    ensures ReadsAs(bdaddr, LogOf(NameResponse(name), charIsSigned), Decode(name)) <==>
            Legible(name, charIsSigned) && !Mimics(FirstLine(name))
  {
    hide Decode, Words, Run, Lines, FileOf, LinesOf, SpellsName, QuietName, FirstLine;
    var s := State(bdaddr, [], false);
    NameHasNoNewlines(name, charIsSigned);
    LinesOfFile(LinesOf(NameResponse(name), charIsSigned));
    NameLines(s, name, charIsSigned);
    var rows := RowsOfName(bdaddr, name, charIsSigned);
    assert s.rows + rows == rows;
    FirstLineIsNoLonger(name);
    if Mimics(FirstLine(name)) {
      MimicIsShorter(bdaddr, FirstLine(name));
      assert !Legible(name, charIsSigned) ==> rows == MimicRows(bdaddr, FirstLine(name));
    }
  }

  lemma OneLineIsQuiet(name: seq<Byte>)
    requires NEWLINE !in name
    ensures QuietName(name) && FirstLine(name) == name
  {
    OneLineSplit(name);
  }

  /** For a name given as text: what its device shows is what the database gets. */
  lemma TextNameComesBack(bdaddr: string, t: string, charIsSigned: bool)
    requires bdaddr != "NULL" && QuietName(Encode(t)) && !IsBlank(t) && !Mimics(FirstLine(Encode(t)))
    requires charIsSigned && |Encode(t)| > 14 ==> Plain(Encode(t))
    ensures ReadsAs(bdaddr, LogOf(NameResponse(Encode(t)), charIsSigned), Some(t))
  {
    Utf8RoundTrip(t);
    hide Decode, Words, Run, Lines, FileOf, LinesOf, SpellsName, Encode, QuietName, FirstLine, Mimics;
    NameComesBackExactly(bdaddr, Encode(t), charIsSigned);
  }

  // ---------- Versions and features read back ----------

  function LittleEndian(bs: seq<Byte>): nat {
    if bs == [] then 0 else bs[0] + 256 * LittleEndian(bs[1..])
  }

  lemma {:induction false} FoldIsLittleEndian(bs: seq<Byte>)
    ensures Folded(bs) == LittleEndian(bs)
  {
    if bs == [] {
    } else {
      FoldIsLittleEndian(bs[1..]);
      OrOfBytes(bs[0], LittleEndian(bs[1..]));
    }
  }

  /** The stored number determines the feature bytes. */
  lemma {:induction false} FeaturesAreDetermined(a: seq<Byte>, b: seq<Byte>)
    requires |a| == |b|
    ensures Folded(a) == Folded(b) ==> a == b
  {
    FoldIsLittleEndian(a);
    FoldIsLittleEndian(b);
    if a != [] && LittleEndian(a) == LittleEndian(b) {
      FoldIsLittleEndian(a[1..]);
      FoldIsLittleEndian(b[1..]);
      FeaturesAreDetermined(a[1..], b[1..]);
      assert a == [a[0]] + a[1..] && b == [b[0]] + b[1..];
    }
  }

  function Word16(low: Byte, high: Byte): nat {
    var l: nat, h: nat := low, high;
    l + 256 * h
  }

  function RowsOf(bdaddr: string, r: Response, charIsSigned: bool): seq<Row> {
    match r
    case NameResponse(name) => RowsOfName(bdaddr, name, charIsSigned)
    case VersionResponse(version, company, subversion) =>
      if version > 13 then []
      else [VersionRow(bdaddr, version, Word16(company.0, company.1), Word16(subversion.0, subversion.1))]
    case FeaturesResponse(features) => [FeaturesRow(bdaddr, 0, LittleEndian(features))]
    case OtherLine(_) => []
  }

  lemma TokenAt(bs: seq<Byte>, i: nat)
    requires i < |bs|
    ensures WordAt(TokenList(bs, false), i) == Some(bs[i])
  {
    TokenRoundTrip(bs[i]);
    TokenIsRead(HexToken(bs[i]));
  }

  lemma VersionTokens(s: State, bs: seq<Byte>)
    requires |bs| == 5
    ensures VersionStep(s, TokenList(bs, false)) ==
            s.(rows := s.rows + if bs[0] > 13 then []
                                else [VersionRow(s.bdaddr, bs[0], Word16(bs[1], bs[2]), Word16(bs[3], bs[4]))])
  {
    hide WordAt, TokenList, BitOr;
    TokenAt(bs, 0);
    TokenAt(bs, 1);
    TokenAt(bs, 2);
    TokenAt(bs, 3);
    TokenAt(bs, 4);
    OrOfBytes(bs[1], bs[2]);
    OrOfBytes(bs[3], bs[4]);
    assert s.rows + [] == s.rows;
  }

  predicate Missing(args: seq<string>, i: nat) {
    i >= |args| || IntBase16(args[i]).None?
  }

  /** Any words for a version: which of them raise, which are passed over, and what is stored otherwise. */
  lemma VersionExactly(s: State, args: seq<string>)
    requires !s.stopped
    ensures VersionStep(s, args).stopped <==>
            || Missing(args, 0) || IntBase16(args[0]).value < 0
            || (IntBase16(args[0]).value <= 13 && exists i: nat :: 1 <= i < 5 && Missing(args, i))
    ensures VersionStep(s, args).stopped ==> VersionStep(s, args) == s.(stopped := true)
    ensures !VersionStep(s, args).stopped ==>
              VersionStep(s, args) ==
              if IntBase16(args[0]).value > 13 then s
              else
                s.(rows := s.rows + [VersionRow(s.bdaddr, IntBase16(args[0]).value,
                                                BitOr(IntBase16(args[1]).value, 256 * IntBase16(args[2]).value),
                                                BitOr(IntBase16(args[3]).value, 256 * IntBase16(args[4]).value))])
  {
    hide IntBase16, BitOr;
    assert forall i: nat :: i < 5 ==> (Missing(args, i) <==> WordAt(args, i).None?);
    assert Missing(args, 1) || Missing(args, 2) || Missing(args, 3) || Missing(args, 4)
           || !exists i: nat :: 1 <= i < 5 && Missing(args, i);
  }

  function WithRows(s: State, rows: seq<Row>): State {
    s.(rows := s.rows + rows)
  }

  lemma WithRowsTwice(s: State, xs: seq<Row>, ys: seq<Row>)
    ensures WithRows(WithRows(s, xs), ys) == WithRows(s, xs + ys) && WithRows(s, []) == s
  {
    assert (s.rows + xs) + ys == s.rows + (xs + ys) && s.rows + [] == s.rows;
  }

  lemma ResponseComesBack(s: State, r: Response, charIsSigned: bool)
    requires !s.stopped && s.bdaddr != "NULL" && Quiet(r)
    ensures Run(s, LinesOf(r, charIsSigned)) == WithRows(s, RowsOf(s.bdaddr, r, charIsSigned))
  {
    hide Step, HexLine, TokenList, VersionStep, RowsOfName;
    match r {
      case NameResponse(name) =>
        NameLines(s, name, charIsSigned);
      case VersionResponse(v, c, u) =>
        var bs := [v, c.0, c.1, u.0, u.1];
        HexLineStep(s, VERSION_OPCODE, bs, false);
        VersionTokens(s, bs);
        assert ([FIRST_WORD, VERSION_OPCODE] + TokenList(bs, false))[2..] == TokenList(bs, false);
      case FeaturesResponse(features) =>
        HexLineStep(s, FEATURES_OPCODE, features, false);
        TokensSpellBytes(features);
        FoldIsLittleEndian(features);
        assert ([FIRST_WORD, FEATURES_OPCODE] + TokenList(features, false))[2..] == TokenList(features, false);
      case OtherLine(line) =>
        IgnorableStep(s, line);
        OneStep(s, line);
        WithRowsTwice(s, [], []);
    }
  }

  // ---------- Whole logs ----------

  /**
   How a session ends: not at all, or with a line that says that all has been received, or that time ran out, and
   whatever follows before the next header.
   */
  datatype Ending = CutOff | Ended(line: seq<Byte>, after: seq<seq<Byte>>)

  /**
   What one launch leaves in the log: a header with the address, a space and the time; the responses, among lines of
   other kinds; and the ending.
   */
  datatype Session = Session(header: string, responses: seq<Response>, ending: Ending)

  /** The two lines that end a session, whatever else is on them. */
  ghost predicate EndsSession(line: seq<Byte>) {
    NEWLINE !in line &&
    match Decode(line)
    case None => false
    case Some(text) =>
      || "BTC_2THPRINT: ALL RESPONSES RECEIVED" <= text
      || ("BTC_2THPRINT: BDADDR " <= text &&
          exists p, q :: text == p + "2THPRINTING TERMINATED DUE TO 10 SEC TIMEOUT" + q)
  }

  /** No colon with a space after it. */
  predicate NoColon(t: string) {
    forall i :: 0 <= i < |t| - 1 ==> !(t[i] == ':' && t[i + 1] == ' ')
  }

  predicate PlainHeader(h: string) {
    && h != "" && h != "NULL" && IsAscii(h) && IsTrimmed(h) && NoColon(h)
    && forall i :: 0 <= i < |h| ==> h[i] != '\n'
  }

  lemma HeaderLineShape()
    ensures IsAscii(HEADER_LINE) && |HEADER_LINE| == 36 && HEADER_LINE[34] == ':' && HEADER_LINE[35] == ' '
    ensures forall i :: 0 <= i < |HEADER_LINE| ==> HEADER_LINE[i] != '\n'
  {
  }

  lemma {:induction false} AfterColon(front: string, piece: string, k: nat)
    requires |front| >= 2 && front[|front| - 2] == ':' && front[|front| - 1] == ' ' && NoColon(piece)
    requires |front| <= k <= |front| + |piece|
    ensures AfterLastColon(front + piece, k) == piece
  {
    var line, n := front + piece, |front|;
    assert line[n..] == piece && line[n - 2] == ':' && line[n - 1] == ' ';
    if k > n {
      assert line[k - 1] == piece[k - 1 - n];
      assert k > n + 1 ==> line[k - 2] == piece[k - 2 - n];
      AfterColon(front, piece, k - 1);
    }
  }

  /** A header line leaves what follows its last colon and space, without the white space around it. */
  lemma AddressExactly(before: string, front: string, a: string, h: string, b: string)
    requires "BTC_2THPRINT: LOG ENTRY FOR BDADDR: " <= front && front[|front| - 2] == ':' && front[|front| - 1] == ' '
    requires NoColon(a + h + b) && IsBlank(a) && IsBlank(b) && IsTrimmed(h)
    ensures Address(before, front + (a + h + b)) == h
  {
    hide Strip, AfterLastColon, NoColon;
    AfterColon(front, a + h + b, |front + (a + h + b)|);
    StripExactly(a, h, b);
  }

  lemma HeaderIsStripped(bdaddr: string, h: string)
    requires PlainHeader(h)
    ensures Address(bdaddr, HEADER_LINE + h) == h
  {
    hide Address;
    HeaderLineShape();
    assert "" + h + "" == h;
    AddressExactly(bdaddr, HEADER_LINE, "", h, "");
  }

  lemma LogIsNoOpcode()
    ensures !IsOpcode("LOG")
  {
  }

  lemma AsciiDecodes(t: string)
    requires IsAscii(t)
    ensures Decode(Ascii(t)) == Some(t)
  {
    DecodeAscii(t, []);
    assert Ascii(t) + [] == Ascii(t) && t + "" == t;
  }

  function HeaderBytes(h: string): seq<Byte>
    requires IsAscii(h)
  {
    HeaderLineShape();
    Ascii(HEADER_LINE + h)
  }

  lemma HeaderStep(s: State, h: string)
    requires PlainHeader(h) && !s.stopped
    ensures Step(s, HeaderBytes(h)) == s.(bdaddr := h)
  {
    HeaderLineShape();
    AsciiDecodes(HEADER_LINE + h);
    hide Decode, Address, Words, IsAscii;
    HeaderIsStripped(s.bdaddr, h);
    SecondWords(HEADER_LINE + h);
    LogIsNoOpcode();
  }

  lemma {:induction false} ContainsExactly(t: string, part: string)
    ensures Contains(t, part) <==> exists p, q :: t == p + part + q
  {
    if part <= t {
      assert t == "" + part + t[|part|..];
    } else {
      if p, q :| t == p + part + q {
        AtStart(t, p, part, q);
        assert t[1..] == p[1..] + part + q;
        ContainsExactly(t[1..], part);
      }
      if t != "" && Contains(t[1..], part) {
        ContainsExactly(t[1..], part);
        var p, q :| t[1..] == p + part + q;
        PutBack(t[0], p, part, q);
        assert t == [t[0]] + t[1..] == ([t[0]] + p) + part + q;
      }
    }
  }

  lemma AtStart(t: string, p: string, part: string, q: string)
    requires t == p + part + q
    ensures p == "" ==> part <= t
  {
    if p == "" {
      assert t == part + q;
    }
  }

  lemma PutBack(c: char, p: string, part: string, q: string)
    ensures [c] + (p + part + q) == ([c] + p) + part + q
  {
  }

  lemma EndIsNoHeader(bdaddr: string, text: string)
    requires DONE_LINE <= text || (TIMEOUT_LINE <= text && Contains(text, TIMEOUT_TEXT))
    ensures Address(bdaddr, text) == NO_ADDRESS
  {
    assert DONE_LINE[14] != HEADER_LINE[14] && TIMEOUT_LINE[14] != HEADER_LINE[14];
    hide Contains;
    assert DONE_LINE <= text ==> text[14] == DONE_LINE[14];
    assert TIMEOUT_LINE <= text ==> text[14] == TIMEOUT_LINE[14];
  }

  lemma EndStep(s: State, line: seq<Byte>)
    requires !s.stopped && EndsSession(line)
    ensures Step(s, line) == s.(bdaddr := "NULL")
  {
    hide Decode, Words, Address, Contains, Handle;
    var text := Decode(line).value;
    ContainsExactly(text, TIMEOUT_TEXT);
    EndIsNoHeader(s.bdaddr, text);
  }

  function ResponseLines(rs: seq<Response>, charIsSigned: bool): seq<seq<Byte>> {
    if rs == [] then [] else LinesOf(rs[0], charIsSigned) + ResponseLines(rs[1..], charIsSigned)
  }

  function ResponseRows(bdaddr: string, rs: seq<Response>, charIsSigned: bool): seq<Row> {
    if rs == [] then [] else RowsOf(bdaddr, rs[0], charIsSigned) + ResponseRows(bdaddr, rs[1..], charIsSigned)
  }

  lemma {:induction false} ResponsesComeBack(s: State, rs: seq<Response>, charIsSigned: bool)
    requires !s.stopped && s.bdaddr != NO_ADDRESS && forall j :: 0 <= j < |rs| ==> Quiet(rs[j])
    ensures Run(s, ResponseLines(rs, charIsSigned)) == WithRows(s, ResponseRows(s.bdaddr, rs, charIsSigned))
    decreases |rs|
  {
    if rs == [] {
      WithRowsTwice(s, [], []);
    } else {
      var rows, s1 := RowsOf(s.bdaddr, rs[0], charIsSigned), WithRows(s, RowsOf(s.bdaddr, rs[0], charIsSigned));
      assert s1.bdaddr == s.bdaddr && !s1.stopped;
      ResponsesComeBack(s1, rs[1..], charIsSigned);
      hide LinesOf, RowsOf, Run, Step, WithRows, Quiet;
      ResponseComesBack(s, rs[0], charIsSigned);
      RunAppend(s, LinesOf(rs[0], charIsSigned), ResponseLines(rs[1..], charIsSigned));
      WithRowsTwice(s, rows, ResponseRows(s.bdaddr, rs[1..], charIsSigned));
    }
  }

  function SessionLines(session: Session, charIsSigned: bool): seq<seq<Byte>>
    requires PlainHeader(session.header)
  {
    [HeaderBytes(session.header)] + ResponseLines(session.responses, charIsSigned)
    + match session.ending case CutOff => [] case Ended(line, after) => [line] + after
  }

  ghost predicate SoundSession(session: Session) {
    && PlainHeader(session.header)
    && (forall j :: 0 <= j < |session.responses| ==> Quiet(session.responses[j]))
    && match session.ending
       case CutOff => true
       case Ended(line, after) => EndsSession(line) && forall j :: 0 <= j < |after| ==> Idle(after[j])
  }

  lemma SessionComesBack(s: State, session: Session, charIsSigned: bool)
    requires !s.stopped && SoundSession(session)
    ensures Run(s, SessionLines(session, charIsSigned)) ==
            WithRows(s, ResponseRows(session.header, session.responses, charIsSigned))
            .(bdaddr := if session.ending.Ended? then NO_ADDRESS else session.header)
  {
    hide Step, Run, HeaderBytes, ResponseRows, ResponseLines, Ascii, Quiet, Idle;
    var header, body := [HeaderBytes(session.header)], ResponseLines(session.responses, charIsSigned);
    var s1 := s.(bdaddr := session.header);
    HeaderStep(s, session.header);
    OneStep(s, HeaderBytes(session.header));
    RunAppend(s, header, body);
    ResponsesComeBack(s1, session.responses, charIsSigned);
    var s2 := WithRows(s1, ResponseRows(session.header, session.responses, charIsSigned));
    match session.ending {
      case CutOff =>
        assert SessionLines(session, charIsSigned) == header + body;
      case Ended(line, after) =>
        SessionEnds(s2, line, after);
        RunAppend(s, header + body, [line] + after);
    }
  }

  lemma SessionEnds(s: State, line: seq<Byte>, after: seq<seq<Byte>>)
    requires !s.stopped && EndsSession(line) && forall j :: 0 <= j < |after| ==> Idle(after[j])
    ensures Run(s, [line] + after) == s.(bdaddr := NO_ADDRESS)
  {
    hide Step, Run, EndsSession, Idle;
    EndStep(s, line);
    RunAppend(s, [line], after);
    OneStep(s, line);
    IdleRun(s.(bdaddr := NO_ADDRESS), after);
  }

  ghost predicate Sound(sessions: seq<Session>) {
    forall i :: 0 <= i < |sessions| ==> SoundSession(sessions[i])
  }

  function LogLines(sessions: seq<Session>, charIsSigned: bool): seq<seq<Byte>>
    requires Sound(sessions)
  {
    if sessions == [] then [] else SessionLines(sessions[0], charIsSigned) + LogLines(sessions[1..], charIsSigned)
  }

  function LogRows(sessions: seq<Session>, charIsSigned: bool): seq<Row> {
    if sessions == [] then []
    else ResponseRows(sessions[0].header, sessions[0].responses, charIsSigned) + LogRows(sessions[1..], charIsSigned)
  }

  lemma {:induction false} SessionsRun(s: State, sessions: seq<Session>, charIsSigned: bool)
    requires !s.stopped && Sound(sessions)
    ensures var r := Run(s, LogLines(sessions, charIsSigned));
            !r.stopped && r.rows == s.rows + LogRows(sessions, charIsSigned)
    decreases |sessions|
  {
    if sessions == [] {
      WithRowsTwice(s, [], []);
    } else {
      hide ResponseRows, SessionLines, SoundSession, Step, Run;
      assert PlainHeader(sessions[0].header) by { SoundHeader(sessions[0]); }
      var first, rest := SessionLines(sessions[0], charIsSigned), LogLines(sessions[1..], charIsSigned);
      SessionComesBack(s, sessions[0], charIsSigned);
      RunAppend(s, first, rest);
      SessionsRun(Run(s, first), sessions[1..], charIsSigned);
      RowsAppend(s.rows, ResponseRows(sessions[0].header, sessions[0].responses, charIsSigned),
                 LogRows(sessions[1..], charIsSigned));
    }
  }

  lemma SoundHeader(session: Session)
    requires SoundSession(session)
    ensures PlainHeader(session.header)
  {
  }

  lemma RowsAppend(xs: seq<Row>, ys: seq<Row>, zs: seq<Row>)
    ensures (xs + ys) + zs == xs + (ys + zs)
  {
  }

  lemma {:induction false} ResponseLinesAreLines(rs: seq<Response>, charIsSigned: bool)
    requires forall j :: 0 <= j < |rs| ==> Quiet(rs[j])
    ensures NoNewlines(ResponseLines(rs, charIsSigned))
  {
    if rs == [] {
    } else {
      hide LinesOf, Quiet;
      ResponseHasNoNewlines(rs[0], charIsSigned);
      ResponseLinesAreLines(rs[1..], charIsSigned);
    }
  }

  lemma HeaderIsLine(h: string)
    requires PlainHeader(h)
    ensures NEWLINE !in HeaderBytes(h)
  {
    HeaderLineShape();
    AsciiHasNoNewline(HEADER_LINE + h);
  }

  lemma SessionIsLines(session: Session, charIsSigned: bool)
    requires SoundSession(session)
    ensures NoNewlines(SessionLines(session, charIsSigned))
  {
    hide ResponseLines, HeaderBytes, PlainHeader, Quiet, Idle;
    HeaderIsLine(session.header);
    ResponseLinesAreLines(session.responses, charIsSigned);
    if session.ending.Ended? {
      IdleRun(State(NO_ADDRESS, [], false), session.ending.after);
    }
  }

  lemma {:induction false} LogLinesAreLines(sessions: seq<Session>, charIsSigned: bool)
    requires Sound(sessions)
    ensures NoNewlines(LogLines(sessions, charIsSigned))
  {
    if sessions == [] {
    } else {
      hide SessionLines, SoundSession;
      SoundHeader(sessions[0]);
      SessionIsLines(sessions[0], charIsSigned);
      LogLinesAreLines(sessions[1..], charIsSigned);
    }
  }

  /**
   Whatever was captured in any number of launches, with every other kind of line in between, the database gets
   exactly the rows of the responses, each under its header's text.
   */
  lemma LogComesBack(before: seq<seq<Byte>>, sessions: seq<Session>, charIsSigned: bool)
    requires Sound(sessions) && forall i :: 0 <= i < |before| ==> Idle(before[i])
    ensures var parsed := Parsed(FileOf(before + LogLines(sessions, charIsSigned)));
            !parsed.stopped && parsed.rows == LogRows(sessions, charIsSigned)
  {
    hide LogLines, Run, Lines, FileOf, Idle, Sound;
    var start := State(NO_ADDRESS, [], false);
    LogLinesAreLines(sessions, charIsSigned);
    IdleRun(start, before);
    LinesOfFile(before + LogLines(sessions, charIsSigned));
    RunAppend(start, before, LogLines(sessions, charIsSigned));
    SessionsRun(start, sessions, charIsSigned);
    assert [] + LogRows(sessions, charIsSigned) == LogRows(sessions, charIsSigned);
  }

  /** The launcher's header: the time stays in the address column. */
  lemma HeaderKeepsTime(bdaddr: string, before: string, time: string)
    requires PlainHeader(bdaddr + " " + time)
    ensures Address(before, "BTC_2THPRINT: LOG ENTRY FOR BDADDR: " + bdaddr + " " + time) ==
                bdaddr + " " + time != bdaddr
  {
    var h := bdaddr + " " + time;
    hide Address;
    HeaderIsStripped(before, h);
    assert HEADER_LINE + h == "BTC_2THPRINT: LOG ENTRY FOR BDADDR: " + bdaddr + " " + time;
    assert |h| > |bdaddr|;
  }

  /** A name whose second line reads like an end line ends its session: what the device answers next is lost. */
  lemma NameEndsSession(s: State, first: seq<Byte>, second: seq<Byte>, charIsSigned: bool)
    requires !s.stopped && s.bdaddr != "NULL" && NEWLINE !in first && EndsSession(second)
    ensures var after := Run(s, LinesOf(NameResponse(first + [NEWLINE] + second), charIsSigned));
            after.bdaddr == "NULL" && !after.stopped
  {
    var name := first + [NEWLINE] + second;
    TwoLines(first, second);
    hide Step, Run, Split, HexLine, PrefixBytes, Mimics, NameRows, EndsSession;
    NameHexStep(s, name, charIsSigned);
    var hex, plain := HexLine(NAME_OPCODE, name, PrintsSigned(name, charIsSigned)), PrefixBytes(NAME_OPCODE) + first;
    var s1 := Step(s, hex);
    NamePlainStep(s1, first);
    OneStep(s, hex);
    OneStep(s1, plain);
    EndStep(Step(s1, plain), second);
    OneStep(Step(s1, plain), second);
    assert [hex, plain] == [hex] + [plain];
    RunAppend(s, [hex], [plain]);
    RunAppend(s, [hex, plain], [second]);
  }

  lemma TwoLines(first: seq<Byte>, second: seq<Byte>)
    requires NEWLINE !in first && NEWLINE !in second
    ensures Split(first + [NEWLINE] + second) == [first, second]
  {
    var bs := first + [NEWLINE] + second;
    var k := LineLength(bs);
    assert forall i :: 0 <= i < |first| ==> bs[i] == first[i] && first[i] in first;
    assert bs[|first|] == NEWLINE;
    assert forall i :: 0 <= i < k ==> bs[i] == bs[..k][i] && bs[..k][i] in bs[..k];
    assert k == |first|;
    assert bs[..k] == first && bs[k + 1..] == second;
    OneLineSplit(second);
  }

  // ---------- The lines of other kinds ----------

  /** What the module and the launcher write besides responses, headers and the end line, by its second word. */
  predicate IsNote(word: string) {
    || word == "NEW" || word == "SUCCESS" || word == "FAILURE" || word == "COMMENT" || word == "COMMENT:"
    || word == "CLASS_OF_DEVICE" || word == "REMOTE_BDADDR" || word == "LMP_OP_0x04" || word == "LMP_OP_0xFE"
  }

  lemma NotesAreWords(word: string)
    requires IsNote(word)
    ensures IsWord(word) && !IsOpcode(word) && word != "LOG" && word != "ALL" && word != "BDADDR"
  {
  }

  /** All of them are passed over. */
  lemma NoteIsIgnorable(word: string, rest: string)
    requires IsNote(word) && IsAscii(Tagged(word, rest)) && '\n' !in Tagged(word, rest)
    ensures Ignorable(Ascii(Tagged(word, rest)))
  {
    hide Tagged;
    AsciiDecodes(Tagged(word, rest));
    AsciiHasNoNewline(Tagged(word, rest));
    NotesAreWords(word);
    TaggedIsIgnorable(word, rest, Ascii(Tagged(word, rest)));
  }

  /**
   The note of an encryption key size is written without a newline, so it takes the next line with it, whatever that
   line is: a response, a header or the end of the session.
   */
  lemma KeySizeSwallowsNextLine(transaction: Byte, size: Byte, next: seq<Byte>)
    requires transaction == 0x20 || transaction == 0x21
    requires NEWLINE !in next
    ensures var note := Tagged("LMP_OP_" + HexToken(transaction), HexToken(size));
            IsAscii(note) && Ignorable(Ascii(note) + next)
  {
    var word, rest := "LMP_OP_" + HexToken(transaction), HexToken(size);
    KeySizeWord(transaction);
    KeySizeNote(transaction, size);
    hide HexToken;
    var note := Tagged(word, rest);
    AsciiHasNoNewline(note);
    DecodeAscii(note, next);
    if Decode(next).Some? {
      assert note + Decode(next).value == Tagged(word, rest + Decode(next).value);
      TaggedIsIgnorable(word, rest + Decode(next).value, Ascii(note) + next);
    } else {
      TaggedIsIgnorable(word, rest, Ascii(note) + next);
    }
  }

  lemma KeySizeWord(transaction: Byte)
    requires transaction == 0x20 || transaction == 0x21
    ensures var word := "LMP_OP_" + HexToken(transaction);
            IsWord(word) && !IsOpcode(word) && word != "LOG" && word != "ALL" && word != "BDADDR"
  {
    var word := "LMP_OP_" + HexToken(transaction);
    assert word == "LMP_OP_0x20" || word == "LMP_OP_0x21";
    assert word[9] == '2' && NAME_OPCODE[9] == '0' && word[10] != VERSION_OPCODE[10] && word[10] != FEATURES_OPCODE[10];
  }

  lemma KeySizeNote(transaction: Byte, size: Byte)
    ensures var note := Tagged("LMP_OP_" + HexToken(transaction), HexToken(size));
            IsAscii(note) && '\n' !in note
  {
    TokenRoundTrip(transaction);
    TokenRoundTrip(size);
    var note := Tagged("LMP_OP_" + HexToken(transaction), HexToken(size));
    assert |note| == 30;
    forall i | 0 <= i < |note| ensures note[i] as int < 0x80 && note[i] != '\n' {
    }
  }
}
