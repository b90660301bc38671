/**
  The instruction decoder: operand parsing in the `r,s,t` and `r,s(t)` forms,
  the line parser that splits a line into mnemonic and operands and dispatches
  on the mnemonic, and the serialiser that writes an instruction back as text.
*/
module Decoder {
  import opened Wrappers
  import opened Word32
  import opened Text
  import opened Decimal
  import opened Isa

  /** The three operands `r`, `s`, `t` in the order they are written. */
  datatype Operands = Operands(r: Int32, s: Int32, t: Int32)

  /** Why an operand string was rejected. */
  datatype OperandError =
    | Malformed(args: string)    // wrong shape or a field that is not an int32
    | BadRegister(field: string) // an int32 field that must name a register and does not

  function OperandMessage(e: OperandError): string {
    match e
    case Malformed(args) => "Invalid arguments: " + args
    case BadRegister(field) => "Invalid arguments. Bad register: " + field
  }

  /** Why a line was rejected. */
  datatype DecodeError =
    | InvalidInstruction(stripped: string)
    | InvalidOpcode(mnemonic: string)
    | InvalidArguments(mnemonic: string, operands: string)

  function DecodeMessage(e: DecodeError): string {
    match e
    case InvalidInstruction(stripped) => "Invalid instruction: '" + stripped + "'"
    case InvalidOpcode(mnemonic) => "Invalid opcode: '" + mnemonic + "'"
    case InvalidArguments(mnemonic, operands) =>
      "Invalid arguments for opcode " + mnemonic + ": '" + operands + "'"
  }

  /** `f` is the decimal text of a register number. */
  predicate IsRegisterText(f: string) {
    ParseInt32(f).Some? && IsRegister(ParseInt32(f).value)
  }

  /** Field `i` is the first of `fields` that is not a register number. */
  predicate FirstBadField(fields: seq<string>, i: int) {
    && 0 <= i < |fields|
    && !IsRegisterText(fields[i])
    && forall j :: 0 <= j < i ==> IsRegisterText(fields[j])
  }

  /** One field that must name a register; `args` is the whole operand string,
      which a non-integer field reports. */
  function RegisterField(field: string, args: string): (r: Result<Int32, OperandError>)
    ensures r.Ok? <==> IsRegisterText(field)
    ensures r.Ok? ==> r.value == ParseInt32(field).value && IsRegister(r.value)
    ensures r.Err? ==> (r.error == Malformed(args) <==> ParseInt32(field).None?)
    ensures r.Err? ==> (r.error == BadRegister(field) <==> ParseInt32(field).Some?)
  {
    match ParseInt32(field)
    case None => Err(Malformed(args))
    case Some(n) => if IsRegister(n) then Ok(n) else Err(BadRegister(field))
  }

  /** `parseROop`: three comma-separated fields, each a register number. A
      wrong number of fields reports the whole operand string. */
  function ParseRO(args: string): (r: Result<Operands, OperandError>)
    ensures |Split(args, ',')| != 3 ==> r == Err(Malformed(args))
    ensures r.Err? && r.error.Malformed? ==> r.error.args == args
    ensures r.Ok? ==> IsRegister(r.value.r) && IsRegister(r.value.s) && IsRegister(r.value.t)
  {
    var f := Split(args, ',');
    if |f| != 3 then Err(Malformed(args)) else RegisterFields(f[0], f[1], f[2], args)
  }

  /** Three register fields, checked left to right. */
  function RegisterFields(f0: string, f1: string, f2: string, args: string)
    : (r: Result<Operands, OperandError>)
    ensures r.Err? && r.error.Malformed? ==> r.error.args == args
    ensures r.Ok? ==> IsRegister(r.value.r) && IsRegister(r.value.s) && IsRegister(r.value.t)
  {
    match RegisterField(f0, args)
    case Err(e) => Err(e)
    case Ok(r) =>
      match RegisterField(f1, args)
      case Err(e) => Err(e)
      case Ok(s) =>
        match RegisterField(f2, args)
        case Err(e) => Err(e)
        case Ok(t) => Ok(Operands(r, s, t))
  }

  /** `parseROop` succeeds iff the split gives exactly three fields and all are
      register numbers, and then returns them in order. */
  lemma ParseROAccepts(args: string)
    ensures ParseRO(args).Ok? <==>
              (var f := Split(args, ',');
               |f| == 3 && IsRegisterText(f[0]) && IsRegisterText(f[1]) && IsRegisterText(f[2]))
    ensures ParseRO(args).Ok? ==>
              (var f := Split(args, ',');
               ParseRO(args).value == Operands(ParseInt32(f[0]).value, ParseInt32(f[1]).value,
                                               ParseInt32(f[2]).value))
  {
  }

  /** When `parseROop` fails on three fields, the fields are checked left to
      right and the first that is not a register number decides the error: a
      non-integer reports the whole operand string, an out-of-range integer
      reports itself (the two cases of `RegisterField`). */
  lemma ParseROFirstBadField(args: string)
    requires |Split(args, ',')| == 3
    requires ParseRO(args).Err?
    ensures exists i :: && FirstBadField(Split(args, ','), i)
                        && ParseRO(args).error == RegisterField(Split(args, ',')[i], args).error
  {
    var f := Split(args, ',');
    assert ParseRO(args) == RegisterFields(f[0], f[1], f[2], args);
    var i := FirstBadFieldOfThree(f[0], f[1], f[2], args);
    assert f == [f[0], f[1], f[2]];
  }

  /** The position of the first of three fields that is not a register number,
      when `RegisterFields` fails on them. */
  lemma FirstBadFieldOfThree(f0: string, f1: string, f2: string, args: string) returns (i: int)
    requires RegisterFields(f0, f1, f2, args).Err?
    ensures FirstBadField([f0, f1, f2], i)
    ensures RegisterFields(f0, f1, f2, args).error == RegisterField([f0, f1, f2][i], args).error
  {
    if !IsRegisterText(f0) {
      i := 0;
    } else if !IsRegisterText(f1) {
      i := 1;
    } else {
      i := 2;
    }
  }

  /** The delimiters of `r,s(t)` are where they must be: the first `,` of the
      string is not its first character, and the first `(` and then the first
      `)` of the string come after it. */
  predicate Delimited(args: string) {
    1 <= IndexOf(args, ',') < IndexOf(args, '(') < IndexOf(args, ')')
  }

  /** The text before the first `,`. */
  function RegisterPiece(args: string): string
    requires Delimited(args)
  {
    args[..IndexOf(args, ',')]
  }

  /** The text between the first `,` and the first `(`. */
  function OffsetPiece(args: string): string
    requires Delimited(args)
  {
    args[IndexOf(args, ',') + 1..IndexOf(args, '(')]
  }

  /** The text between the first `(` and the first `)`. */
  function BasePiece(args: string): string
    requires Delimited(args)
  {
    args[IndexOf(args, '(') + 1..IndexOf(args, ')')]
  }

  /** `parseRMop`: the form `r,s(t)`. Misplaced delimiters report the whole
      operand string. The guard is the source's `x < 1 || y < x || z < y` on
      the positions of the first `,`, `(` and `)`. */
  function ParseRM(args: string): (r: Result<Operands, OperandError>)
    ensures !Delimited(args) ==> r == Err(Malformed(args))
    ensures r.Err? && r.error.Malformed? ==> r.error.args == args
    ensures r.Ok? ==> IsRegister(r.value.r) && IsRegister(r.value.t)
  {
    var x := IndexOf(args, ',');
    var y := IndexOf(args, '(');
    var z := IndexOf(args, ')');
    if x < 1 || y < x || z < y then Err(Malformed(args))
    else
      assert Delimited(args);
      MemoryFields(args[..x], args[x + 1..y], args[y + 1..z], args)
  }

  /** A register field, an int32 field and a register field, checked left to
      right. */
  function MemoryFields(rf: string, sf: string, tf: string, args: string)
    : (r: Result<Operands, OperandError>)
    ensures r.Err? && r.error.Malformed? ==> r.error.args == args
    ensures r.Ok? ==> IsRegister(r.value.r) && IsRegister(r.value.t)
  {
    match RegisterField(rf, args)
    case Err(e) => Err(e)
    case Ok(r) =>
      match ParseInt32(sf)
      case None => Err(Malformed(args))
      case Some(s) =>
        match RegisterField(tf, args)
        case Err(e) => Err(e)
        case Ok(t) => Ok(Operands(r, s, t))
  }

  /** `parseRMop` succeeds iff the delimiters are in place, `r` and `t` are
      register numbers and `s` is any int32 (negative included), and then
      returns the three in order. Text after the first `)` plays no part. */
  lemma ParseRMAccepts(args: string)
    ensures ParseRM(args).Ok? <==>
              && Delimited(args)
              && IsRegisterText(RegisterPiece(args))
              && ParseInt32(OffsetPiece(args)).Some?
              && IsRegisterText(BasePiece(args))
    ensures ParseRM(args).Ok? ==>
              ParseRM(args).value == Operands(ParseInt32(RegisterPiece(args)).value,
                                              ParseInt32(OffsetPiece(args)).value,
                                              ParseInt32(BasePiece(args)).value)
  {
  }

  /** A piece that is an integer but not a register reports itself: `r` is
      checked first, then `s` must be an integer before `t` is checked. The
      piece reported is always an integer. */
  lemma ParseRMBadRegister(args: string)
    requires ParseRM(args).Err? && ParseRM(args).error.BadRegister?
    ensures Delimited(args)
    ensures ParseInt32(ParseRM(args).error.field).Some?
    ensures || (&& !IsRegisterText(RegisterPiece(args))
                && ParseRM(args).error.field == RegisterPiece(args))
            || (&& IsRegisterText(RegisterPiece(args))
                && ParseInt32(OffsetPiece(args)).Some?
                && !IsRegisterText(BasePiece(args))
                && ParseRM(args).error.field == BasePiece(args))
  {
  }

  /** A piece that is not an int32, met before any bad register in the
      left-to-right order, reports the whole operand string, never a bad
      register. */
  lemma ParseRMMalformed(args: string)
    requires Delimited(args)
    requires || ParseInt32(RegisterPiece(args)).None?
             || (IsRegisterText(RegisterPiece(args)) && ParseInt32(OffsetPiece(args)).None?)
             || (&& IsRegisterText(RegisterPiece(args))
                 && ParseInt32(OffsetPiece(args)).Some?
                 && ParseInt32(BasePiece(args)).None?)
    ensures ParseRM(args) == Err(Malformed(args))
  {
  }

  /** An `r` piece that is an int32 but not a register reports itself, as
      `10,1(1)` reports `10`. */
  lemma ParseRMBadFirstRegister(args: string)
    requires Delimited(args)
    requires ParseInt32(RegisterPiece(args)).Some?
    requires !IsRegister(ParseInt32(RegisterPiece(args)).value)
    ensures ParseRM(args) == Err(BadRegister(RegisterPiece(args)))
  {
  }

  /** With `r` a register and `s` an int32, a `t` piece that is an int32 but
      not a register reports itself, as `1,1(12)` reports `12`. */
  lemma ParseRMBadBaseRegister(args: string)
    requires Delimited(args)
    requires IsRegisterText(RegisterPiece(args))
    requires ParseInt32(OffsetPiece(args)).Some?
    requires ParseInt32(BasePiece(args)).Some?
    requires !IsRegister(ParseInt32(BasePiece(args)).value)
    ensures ParseRM(args) == Err(BadRegister(BasePiece(args)))
  {
  }

  /** The operand parser for a format. */
  function ParseOperands(format: Format, args: string): Result<Operands, OperandError> {
    if format == RegisterOnly then ParseRO(args) else ParseRM(args)
  }

  /** The line after the space rewrite and the trim: what the tokens are cut from. */
  function Stripped(line: string): string {
    TrimSpace(CollapseSpaces(line))
  }

  /** The space-separated tokens of a line. */
  function Tokens(line: string): seq<string> {
    Split(Stripped(line), ' ')
  }

  /** `parseInstruction`: the line, with runs of spaces collapsed and white space
      trimmed, must be exactly two space-separated tokens, which are then
      decoded as a mnemonic and its operands. Every decoded instruction is well
      formed. */
  function ParseInstruction(line: string): (r: Result<Instr, DecodeError>)
    ensures |Tokens(line)| != 2 <==> r == Err(InvalidInstruction(Stripped(line)))
    ensures |Tokens(line)| == 2 ==> r == DecodeTokens(Tokens(line)[0], Tokens(line)[1])
    ensures r.Ok? ==> WellFormed(r.value)
  {
    var stripped := Stripped(line);
    var parts := Split(stripped, ' ');
    if |parts| != 2 then Err(InvalidInstruction(stripped))
    else DecodeTokens(parts[0], parts[1])
  }

  /** The mnemonic token must name an opcode and the operand token must parse
      in that opcode's format. A decoded instruction is well formed and carries
      the mnemonic it was written with; an unknown mnemonic reports itself, and
      operands that do not parse report both tokens. */
  function DecodeTokens(mnemonic: string, operands: string): (r: Result<Instr, DecodeError>)
    ensures r.Ok? ==> && WellFormed(r.value)
                      && Mnemonic(r.value.op) == mnemonic
                      && ParseOperands(r.value.format, operands)
                           == Ok(Operands(r.value.r, r.value.s, r.value.t))
    ensures r.Err? ==> r.error.InvalidOpcode? || r.error.InvalidArguments?
    ensures r.Err? && r.error.InvalidOpcode? ==>
              r.error.mnemonic == mnemonic && ParseOpcode(mnemonic).None?
    ensures r.Err? && r.error.InvalidArguments? ==>
              && r.error == InvalidArguments(mnemonic, operands)
              && ParseOpcode(mnemonic).Some?
              && ParseOperands(FormatOf(ParseOpcode(mnemonic).value), operands).Err?
  {
    match ParseOpcode(mnemonic)
    case None => Err(InvalidOpcode(mnemonic))
    case Some(op) =>
      var format := FormatOf(op);
      match ParseOperands(format, operands)
      case Err(_) => Err(InvalidArguments(mnemonic, operands))
      case Ok(o) => Ok(Instr(op, o.r, o.s, o.t, format))
  }

  /** A line without a single space character never decodes: a tab between the
      mnemonic and the operands leaves one token. */
  lemma NoSpaceNoInstruction(line: string)
    requires ' ' !in line
    ensures ParseInstruction(line) == Err(InvalidInstruction(Stripped(line)))
  {
    var collapsed := CollapseSpaces(line);
    CollapseKeepsSpace(line);
    if ' ' in Stripped(line) {
      TrimSpaceSubstring(collapsed, ' ');
    }
    assert Split(Stripped(line), ' ') == [Stripped(line)];
  }

  /** `s` padded with spaces on the right to `width` characters, as `%-4s`. */
  function PadRight(s: string, width: nat): string {
    if |s| >= width then s else s + Spaces(width - |s|)
  }

  /** The operand text `%d,%d,%d` or `%d,%d(%d)`, chosen by the format tag. */
  function FormatOperands(i: Instr): string {
    if i.format == RegisterOnly then
      FormatInt(i.r) + "," + FormatInt(i.s) + "," + FormatInt(i.t)
    else
      FormatInt(i.r) + "," + FormatInt(i.s) + "(" + FormatInt(i.t) + ")"
  }

  /** `TinyInstruction.String`: the mnemonic padded to four characters, a space,
      and the operands in the form the format tag selects. */
  function Render(i: Instr): (r: string)
    ensures |r| > 5
    ensures r[..|Mnemonic(i.op)|] == Mnemonic(i.op)
    ensures forall k :: |Mnemonic(i.op)| <= k < 5 ==> r[k] == ' '
    ensures r[5..] == FormatOperands(i) && ' ' !in r[5..]
  {
    MnemonicShape(i.op);
    FormatOperandsChars(i);
    PadRight(Mnemonic(i.op), 4) + " " + FormatOperands(i)
  }

  /** Printed integers hold none of the characters the decoder splits on, and
      end in a digit. */
  lemma FormatIntChars(x: int)
    ensures ' ' !in FormatInt(x) && ',' !in FormatInt(x)
    ensures '(' !in FormatInt(x) && ')' !in FormatInt(x)
    ensures IsDigit(FormatInt(x)[|FormatInt(x)| - 1])
  {
    var s := FormatInt(x);
    if x < 0 {
      assert s[|s| - 1] == FormatNat(-x)[|FormatNat(-x)| - 1];
    }
  }

  /** Each register-number field prints as text that parses back to it. */
  lemma RegisterFieldRoundTrip(x: Int32, args: string)
    requires IsRegister(x)
    ensures RegisterField(FormatInt(x), args) == Ok(x)
  {
    ParseFormatInt(x);
  }

  /** The `r,s,t` text of three registers parses back to them. */
  lemma ParseROFormat(r: Int32, s: Int32, t: Int32)
    requires IsRegister(r) && IsRegister(s) && IsRegister(t)
    ensures ParseRO(FormatInt(r) + "," + FormatInt(s) + "," + FormatInt(t)) == Ok(Operands(r, s, t))
  {
    var fr, fs, ft := FormatInt(r), FormatInt(s), FormatInt(t);
    FormatIntChars(r);
    FormatIntChars(s);
    FormatIntChars(t);
    assert Split(fr + "," + fs + "," + ft, ',') == [fr, fs, ft] by {
      JoinThree(fr, fs, ft, ',');
      SplitJoin([fr, fs, ft], ',');
    }
    var text := fr + "," + fs + "," + ft;
    RegisterFieldRoundTrip(r, text);
    RegisterFieldRoundTrip(s, text);
    RegisterFieldRoundTrip(t, text);
  }

  /** Three pieces joined by a separator. */
  lemma JoinThree(a: string, b: string, d: string, c: char)
    ensures Join([a, b, d], c) == a + [c] + b + [c] + d
  {
    assert [a, b, d][1..] == [b, d];
    assert [b, d][1..] == [d];
    calc {
      Join([a, b, d], c);
      a + [c] + Join([b, d], c);
      a + [c] + (b + [c] + d);
      a + [c] + b + [c] + d;
    }
  }

  /** `fr + "," + fs + "(" + ft + ")"`, the shape `%d,%d(%d)` prints. */
  function RmText(fr: string, fs: string, ft: string): string {
    fr + "," + fs + "(" + ft + ")"
  }

  /** In `fr,fs(ft)` with delimiter-free pieces and a non-empty `fr`, the
      delimiters are where `parseRMop` wants them and cut out the three pieces. */
  lemma DelimitedFormat(fr: string, fs: string, ft: string)
    requires |fr| >= 1
    requires ',' !in fr && '(' !in fr && ')' !in fr
    requires '(' !in fs && ')' !in fs
    requires ')' !in ft
    ensures Delimited(RmText(fr, fs, ft))
    ensures RegisterPiece(RmText(fr, fs, ft)) == fr
    ensures OffsetPiece(RmText(fr, fs, ft)) == fs
    ensures BasePiece(RmText(fr, fs, ft)) == ft
  {
    FirstComma(fr, fs, ft);
    FirstOpen(fr, fs, ft);
    FirstClose(fr, fs, ft);
    RmPieces(fr, fs, ft);
  }

  /** The three pieces sit in `fr,fs(ft)` at the places the delimiters bound. */
  lemma RmPieces(fr: string, fs: string, ft: string)
    ensures var args := RmText(fr, fs, ft);
            var y := |fr| + 1 + |fs|;
            && args[..|fr|] == fr
            && args[|fr| + 1..y] == fs
            && args[y + 1..y + 1 + |ft|] == ft
  {
  }

  lemma FirstComma(fr: string, fs: string, ft: string)
    requires ',' !in fr
    ensures IndexOf(RmText(fr, fs, ft), ',') == |fr|
  {
    assert RmText(fr, fs, ft) == fr + [','] + (fs + "(" + ft + ")");
    IndexOfAfter(fr, ',', fs + "(" + ft + ")");
  }

  lemma FirstOpen(fr: string, fs: string, ft: string)
    requires '(' !in fr && '(' !in fs
    ensures IndexOf(RmText(fr, fs, ft), '(') == |fr| + 1 + |fs|
  {
    var pre := fr + "," + fs;
    assert RmText(fr, fs, ft) == pre + ['('] + (ft + ")");
    assert '(' !in pre;
    IndexOfAfter(pre, '(', ft + ")");
  }

  lemma FirstClose(fr: string, fs: string, ft: string)
    requires ')' !in fr && ')' !in fs && ')' !in ft
    ensures IndexOf(RmText(fr, fs, ft), ')') == |fr| + 1 + |fs| + 1 + |ft|
  {
    var pre := fr + "," + fs + "(" + ft;
    assert RmText(fr, fs, ft) == pre + [')'] + "";
    assert ')' !in pre;
    IndexOfAfter(pre, ')', "");
  }

  /** The `r,s(t)` text of two registers and any int32 parses back to them. */
  lemma ParseRMFormat(r: Int32, s: Int32, t: Int32)
    requires IsRegister(r) && IsRegister(t)
    ensures ParseRM(FormatInt(r) + "," + FormatInt(s) + "(" + FormatInt(t) + ")") == Ok(Operands(r, s, t))
  {
    FormatIntChars(r);
    FormatIntChars(s);
    FormatIntChars(t);
    var args := RmText(FormatInt(r), FormatInt(s), FormatInt(t));
    DelimitedFormat(FormatInt(r), FormatInt(s), FormatInt(t));
    ParseFormatInt(r);
    ParseFormatInt(s);
    ParseFormatInt(t);
    ParseRMAccepts(args);
  }

  /** The operands of a well-formed instruction, printed, parse back to them. */
  lemma ParseFormatOperands(i: Instr)
    requires WellFormed(i)
    ensures ParseOperands(i.format, FormatOperands(i)) == Ok(Operands(i.r, i.s, i.t))
  {
    if i.format == RegisterOnly {
      ParseROFormat(i.r, i.s, i.t);
    } else {
      ParseRMFormat(i.r, i.s, i.t);
    }
  }

  /** Printed operands hold no space and end in a digit or `)`. */
  lemma FormatOperandsChars(i: Instr)
    ensures ' ' !in FormatOperands(i)
    ensures |FormatOperands(i)| > 0
    ensures !IsSpace(FormatOperands(i)[|FormatOperands(i)| - 1])
  {
    FormatIntChars(i.r);
    FormatIntChars(i.s);
    FormatIntChars(i.t);
    var o := FormatOperands(i);
    var ft := FormatInt(i.t);
    if i.format == RegisterOnly {
      assert o[|o| - 1] == ft[|ft| - 1];
    }
  }

  /** Round trip: the printed form of every well-formed instruction decodes back
      to the same instruction. The padding of `%-4s` collapses with the
      separating space, and negative offsets read back through their sign. */
  lemma RenderRoundTrip(i: Instr)
    requires WellFormed(i)
    ensures ParseInstruction(Render(i)) == Ok(i)
  {
    RenderTokens(i);
    ParseMnemonic(i.op);
    ParseFormatOperands(i);
  }

  /** The tokens of a printed instruction are its mnemonic and its operands. */
  lemma RenderTokens(i: Instr)
    ensures Tokens(Render(i)) == [Mnemonic(i.op), FormatOperands(i)]
  {
    MnemonicShape(i.op);
    FormatOperandsChars(i);
    RenderCollapses(i);
    TwoWords(Mnemonic(i.op), FormatOperands(i));
  }

  /** Two space-free words joined by a space, with no white space at the outer
      ends, trim to themselves and split back into the two words. */
  lemma TwoWords(m: string, o: string)
    requires |m| > 0 && |o| > 0
    requires ' ' !in m && ' ' !in o
    requires !IsSpace(m[0]) && !IsSpace(o[|o| - 1])
    ensures Split(TrimSpace(m + " " + o), ' ') == [m, o]
  {
    var line := m + " " + o;
    assert line[0] == m[0] && line[|line| - 1] == o[|o| - 1];
    TrimSpaceUnchanged(line);
    assert Join([m, o], ' ') == line by {
      assert [m, o][1..] == [o];
    }
    SplitJoin([m, o], ' ');
  }

  /** The padding after the mnemonic and the separating space collapse to one. */
  lemma RenderCollapses(i: Instr)
    ensures CollapseSpaces(Render(i)) == Mnemonic(i.op) + " " + FormatOperands(i)
  {
    MnemonicShape(i.op);
    FormatOperandsChars(i);
    PaddedCollapses(Mnemonic(i.op), FormatOperands(i));
  }

  /** A space-free word of at most four characters, padded by `%-4s` and followed
      by a space and space-free text, collapses to word, one space, text. */
  lemma PaddedCollapses(m: string, o: string)
    requires 1 <= |m| <= 4
    requires ' ' !in m && ' ' !in o
    ensures CollapseSpaces(PadRight(m, 4) + " " + o) == m + " " + o
  {
    var k := 5 - |m|;
    var line := PadRight(m, 4) + " " + o;
    assert line == m + (Spaces(k) + o) by {
      PadSpaces(m);
    }
    calc {
      CollapseSpaces(line);
      CollapseSpaces(m + (Spaces(k) + o));
      { CollapseSpaceFreePrefix(m, Spaces(k) + o); }
      m + CollapseSpaces(Spaces(k) + o);
      { CollapseSpaceRun(k, o); }
      m + (" " + o);
    }
  }

  /** `%-4s` of a short word followed by a space is the word and the spaces. */
  lemma PadSpaces(m: string)
    requires |m| <= 4
    ensures PadRight(m, 4) + " " == m + Spaces(5 - |m|)
  {
    var k := 4 - |m|;
    SpacesSplit(k);
    if k == 0 {
      assert PadRight(m, 4) == m;
      assert Spaces(1) == " ";
    } else {
      assert PadRight(m, 4) == m + Spaces(k);
      assert m + Spaces(k) + " " == m + (Spaces(k) + " ");
    }
  }

  /** `k + 1` spaces are `k` spaces and one more. */
  lemma {:induction false} SpacesSplit(k: nat)
    ensures Spaces(k + 1) == Spaces(k) + " "
  {
    if k > 0 {
      SpacesSplit(k - 1);
    }
  }

  /** A line written as a mnemonic, one space and the operands, with no other
      white space, is decoded from exactly those two tokens. */
  lemma SingleSpaced(m: string, o: string)
    requires |m| > 0 && |o| > 0
    requires ' ' !in m && ' ' !in o
    requires !IsSpace(m[0]) && !IsSpace(o[|o| - 1])
    ensures ParseInstruction(m + " " + o) == DecodeTokens(m, o)
  {
    var line := m + " " + o;
    assert NoDoubleSpace(line) by {
      forall i | 0 <= i < |line| - 1 ensures !(line[i] == ' ' && line[i + 1] == ' ') {
        if i < |m| {
          assert line[i] == m[i];
        } else {
          assert line[i + 1] == o[i - |m|];
        }
      }
    }
    CollapseNoDoubleSpace(line);
    TwoWords(m, o);
  }

  /** Every instruction the decoder accepts prints as a line that decodes back
      to it. */
  lemma DecodeRenderDecode(line: string)
    requires ParseInstruction(line).Ok?
    ensures ParseInstruction(Render(ParseInstruction(line).value)) == ParseInstruction(line)
  {
    RenderRoundTrip(ParseInstruction(line).value);
  }

  /** Anything after the first `)` of well-delimited, decodable `r,s(t)` operands
      is ignored. */
  lemma ParseRMIgnoresTrailing(args: string, tail: string)
    requires ParseRM(args).Ok?
    ensures ParseRM(args + tail) == ParseRM(args)
  {
    ParseRMAccepts(args);
    DelimitedPrefix(args, tail);
    ParseRMAccepts(args + tail);
  }

  /** The delimiters of `args` and the pieces they cut are the same in
      `args + tail`. */
  lemma DelimitedPrefix(args: string, tail: string)
    requires Delimited(args)
    ensures Delimited(args + tail)
    ensures RegisterPiece(args + tail) == RegisterPiece(args)
    ensures OffsetPiece(args + tail) == OffsetPiece(args)
    ensures BasePiece(args + tail) == BasePiece(args)
  {
    var x, y, z := IndexOf(args, ','), IndexOf(args, '('), IndexOf(args, ')');
    IndexOfPrefix(args, tail, ',');
    IndexOfPrefix(args, tail, '(');
    IndexOfPrefix(args, tail, ')');
    PrefixSlice(args, tail, x + 1, y);
    PrefixSlice(args, tail, y + 1, z);
  }

  /** A slice within `a` is the same slice of `a + b`. */
  lemma PrefixSlice(a: string, b: string, i: int, j: int)
    requires 0 <= i <= j <= |a|
    ensures (a + b)[i..j] == a[i..j]
    ensures (a + b)[..j] == a[..j]
  {
  }

  /** A character found in `a` is found at the same place in `a + b`. */
  lemma IndexOfPrefix(a: string, b: string, c: char)
    requires c in a
    ensures IndexOf(a + b, c) == IndexOf(a, c)
  {
    var k := IndexOf(a, c);
    assert a + b == a[..k] + [c] + (a[k + 1..] + b);
    IndexOfAfter(a[..k], c, a[k + 1..] + b);
  }
}
