/**
  The program loader: the program text is read line by line, blank lines and
  comment lines are skipped, and every other line is decoded into the next
  free slot of instruction memory, stopping at the first line that does not
  decode.
*/
module Loader {
  import opened Wrappers
  import opened Word32
  import opened Text
  import opened Decimal
  import opened Isa
  import opened Decoder
  import opened Engine

  /** The newline-terminated lines of `text`, without their newlines, as
      repeated `ReadString('\n')` returns them: reading stops at the end of the
      text, so text after the last newline is never returned. */
  function Lines(text: string): (lines: seq<string>)
    ensures forall j :: 0 <= j < |lines| ==> '\n' !in lines[j]
    decreases |text|
  {
    var k := IndexOf(text, '\n');
    if k < 0 then [] else [text[..k]] + Lines(text[k + 1..])
  }

  /** Lines written out, each followed by a newline. */
  function Unlines(lines: seq<string>): string {
    if |lines| == 0 then "" else lines[0] + "\n" + Unlines(lines[1..])
  }

  /** A line the loader decodes: it has an alphanumeric character and does not
      start with `*`. */
  predicate Kept(line: string): (b: bool)
    ensures b ==> |line| > 0 && line[0] != '*'
    ensures (forall k :: 0 <= k < |line| ==> IsSpace(line[k])) ==> !b
  {
    HasAlnum(line) && !(|line| > 0 && line[0] == '*')
  }

  /** The first line that did not decode: its number (counting every line read,
      from 1), its text and the decoder's error. */
  datatype LoadFailure = LoadFailure(lineNumber: nat, line: string, error: DecodeError)

  /** The report printed after the decoder's own message. */
  function FailureMessage(f: LoadFailure): string {
    "Error parsing program at line " + FormatInt(f.lineNumber) + ": " + f.line
  }

  /** The instructions decoded before the loader stopped, and why it stopped
      early, if it did. */
  datatype Decoding = Decoding(instrs: seq<Instr>, failure: Option<LoadFailure>)

  /** How one line is decoded. The loader uses `ParseInstruction`; the facts
      about the pass itself hold whatever the line decoder is. */
  type LineDecoder = string -> Result<Instr, DecodeError>

  /** The loader's pass over `lines`, the first of which is line `first`:
      skipped lines contribute nothing, decoded lines contribute their
      instruction in order, and the first failure ends the pass. */
  function Pass(decode: LineDecoder, lines: seq<string>, first: nat): (d: Decoding)
    ensures |d.instrs| <= |lines|
    decreases |lines|
  {
    if |lines| == 0 then Decoding([], None)
    else if !Kept(lines[0]) then Pass(decode, lines[1..], first + 1)
    else
      match decode(lines[0])
      case Err(e) => Decoding([], Some(LoadFailure(first, lines[0], e)))
      case Ok(i) =>
        var rest := Pass(decode, lines[1..], first + 1);
        Decoding([i] + rest.instrs, rest.failure)
  }

  /** The pass the loader makes, decoding with `ParseInstruction`. */
  function DecodeLines(lines: seq<string>, first: nat): Decoding {
    Pass(ParseInstruction, lines, first)
  }

  /** Instruction memory of `cap` slots holding `instrs` from slot 0 and
      `HALT 0,0,0` after them. */
  function Place(instrs: seq<Instr>, cap: nat): (p: seq<Instr>)
    requires |instrs| <= cap
    ensures |p| == cap
    ensures p[..|instrs|] == instrs
    ensures forall k :: |instrs| <= k < cap ==> p[k] == HaltInstr
  {
    instrs + Halts(cap - |instrs|)
  }

  /** The machine `loadProgram` leaves behind: a freshly set-up machine whose
      instruction memory holds what the pass decoded, even when it failed. */
  function Loaded(m: Machine, cap: Int32, text: string): Machine
    requires 1 <= cap
    requires |DecodeLines(Lines(text), 1).instrs| <= cap as int
  {
    Initialize(m, cap, true).(program := Place(DecodeLines(Lines(text), 1).instrs, cap as int))
  }

  /** `loadProgram`, reading `text` from the start. It sets the machine up with a
      cleared program, then fills instruction memory as the source's loop does,
      and reports success iff no line failed to decode. More decoded lines than
      slots would index past instruction memory, so the caller must rule that
      out. */
  method LoadProgram(m: Machine, cap: Int32, text: string)
    returns (ok: bool, r: Machine, failure: Option<LoadFailure>)
    requires 1 <= cap
    requires |DecodeLines(Lines(text), 1).instrs| <= cap as int
    ensures r == Loaded(m, cap, text)
    ensures failure == DecodeLines(Lines(text), 1).failure
    ensures ok <==> failure.None?
  {
    var program;
    program, failure := Fill(ParseInstruction, Lines(text), cap as int);
    r := Initialize(m, cap, true).(program := program);
    ok := failure.None?;
  }

  /** The loop of `loadProgram` over the lines read, decoding with `decode`:
      memory starts as `cap` `HALT`s, each decoded line goes into the next
      slot, and the first line that does not decode stops the loop. */
  method Fill(decode: LineDecoder, lines: seq<string>, cap: nat)
    returns (program: seq<Instr>, failure: Option<LoadFailure>)
    requires |Pass(decode, lines, 1).instrs| <= cap
    ensures program == Place(Pass(decode, lines, 1).instrs, cap)
    ensures failure == Pass(decode, lines, 1).failure
  {
    var total := Pass(decode, lines, 1);
    program := Halts(cap);
    var i := 0;
    var k := 0;
    while k < |lines|
      invariant 0 <= k <= |lines|
      invariant 0 <= i <= cap && |program| == cap
      invariant forall j :: i <= j < cap ==> program[j] == HaltInstr
      invariant total.instrs == program[..i] + Pass(decode, lines[k..], k + 1).instrs
      invariant total.failure == Pass(decode, lines[k..], k + 1).failure
      decreases |lines| - k
    {
      var line := lines[k];
      if Kept(line) {
        match decode(line)
        case Err(e) =>
          failure := Some(LoadFailure(k + 1, line, e));
          PassFails(decode, lines, k, e);
          FilledPrefix(program, i, cap);
          return;
        case Ok(instr) =>
          PassTakes(decode, lines, k, instr);
          Append(program, i, instr, Pass(decode, lines[k + 1..], k + 2).instrs);
          program := program[i := instr];
          i := i + 1;
      } else {
        PassSkips(decode, lines, k);
      }
      k := k + 1;
    }
    assert lines[k..] == [];
    FilledPrefix(program, i, cap);
    failure := None;
  }

  /** A skipped line adds nothing to the pass. */
  lemma PassSkips(decode: LineDecoder, lines: seq<string>, k: nat)
    requires k < |lines| && !Kept(lines[k])
    ensures Pass(decode, lines[k..], k + 1) == Pass(decode, lines[k + 1..], k + 2)
  {
    assert lines[k..][1..] == lines[k + 1..];
  }

  /** A kept line that does not decode ends the pass with its failure. */
  lemma PassFails(decode: LineDecoder, lines: seq<string>, k: nat, e: DecodeError)
    requires k < |lines| && Kept(lines[k]) && decode(lines[k]) == Err(e)
    ensures Pass(decode, lines[k..], k + 1) == Decoding([], Some(LoadFailure(k + 1, lines[k], e)))
  {
    assert lines[k..][0] == lines[k];
  }

  /** A kept line that decodes contributes its instruction ahead of the rest. */
  lemma PassTakes(decode: LineDecoder, lines: seq<string>, k: nat, instr: Instr)
    requires k < |lines| && Kept(lines[k]) && decode(lines[k]) == Ok(instr)
    ensures var rest := Pass(decode, lines[k + 1..], k + 2);
            Pass(decode, lines[k..], k + 1) == Decoding([instr] + rest.instrs, rest.failure)
  {
    assert lines[k..][0] == lines[k] && lines[k..][1..] == lines[k + 1..];
  }

  /** Writing the next instruction into slot `i` extends the filled prefix. */
  lemma Append(program: seq<Instr>, i: nat, instr: Instr, rest: seq<Instr>)
    requires i < |program|
    ensures program[..i] + ([instr] + rest) == program[i := instr][..i + 1] + rest
  {
    assert program[i := instr][..i + 1] == program[..i] + [instr];
  }

  /** Memory whose slots from `i` on hold `HALT` is its first `i` slots placed. */
  lemma FilledPrefix(program: seq<Instr>, i: nat, cap: nat)
    requires i <= cap && |program| == cap
    requires forall j :: i <= j < cap ==> program[j] == HaltInstr
    ensures program == Place(program[..i], cap)
  {
  }

  /** Text written as lines, followed by an unterminated tail, reads back as
      exactly those lines: the tail is never returned. */
  lemma {:induction false} LinesUnlines(lines: seq<string>, tail: string)
    requires forall j :: 0 <= j < |lines| ==> '\n' !in lines[j]
    requires '\n' !in tail
    ensures Lines(Unlines(lines) + tail) == lines
  {
    if |lines| == 0 {
      assert Unlines(lines) + tail == tail;
    } else {
      var text := Unlines(lines) + tail;
      var rest := Unlines(lines[1..]) + tail;
      assert text == lines[0] + ("\n" + rest);
      FirstNewline(lines[0], rest);
      assert text[..|lines[0]|] == lines[0];
      assert text[|lines[0]| + 1..] == rest;
      LinesUnlines(lines[1..], tail);
    }
  }

  /** The first newline of `line + "\n" + rest` is the one after `line`. */
  lemma FirstNewline(line: string, rest: string)
    requires '\n' !in line
    ensures IndexOf(line + ("\n" + rest), '\n') == |line|
  {
    var s := line + ("\n" + rest);
    assert s[|line|] == '\n';
  }

  /** The lines the loader decodes, in order. */
  function KeptLines(lines: seq<string>): (kept: seq<string>)
    ensures |kept| <= |lines|
    ensures forall j :: 0 <= j < |kept| ==> Kept(kept[j])
  {
    if |lines| == 0 then []
    else if Kept(lines[0]) then [lines[0]] + KeptLines(lines[1..])
    else KeptLines(lines[1..])
  }

  /** `instrs` are what the kept lines of `lines` decode to, one for one. */
  predicate DecodedAs(decode: LineDecoder, lines: seq<string>, instrs: seq<Instr>) {
    var kept := KeptLines(lines);
    && |instrs| == |kept|
    && forall j :: 0 <= j < |instrs| ==> decode(kept[j]) == Ok(instrs[j])
  }

  /** Every kept line of `lines` decodes. */
  predicate AllDecode(decode: LineDecoder, lines: seq<string>) {
    forall j :: 0 <= j < |lines| && Kept(lines[j]) ==> decode(lines[j]).Ok?
  }

  /** The pass succeeds exactly when every kept line decodes, and then it yields
      the decoded kept lines in order. */
  lemma {:induction false} PassSucceeds(decode: LineDecoder, lines: seq<string>, first: nat)
    ensures Pass(decode, lines, first).failure.None? <==> AllDecode(decode, lines)
    ensures Pass(decode, lines, first).failure.None? ==>
              DecodedAs(decode, lines, Pass(decode, lines, first).instrs)
    decreases |lines|
  {
    if |lines| > 0 {
      var tail := lines[1..];
      var rest := Pass(decode, tail, first + 1);
      PassSucceeds(decode, tail, first + 1);
      if Kept(lines[0]) && decode(lines[0]).Err? {
        assert !AllDecode(decode, lines);
      } else {
        HeadAndTail(decode, lines);
        if rest.failure.None? {
          ConsDecodedAs(decode, lines, Pass(decode, lines, first).instrs, rest.instrs);
        }
      }
    }
  }

  /** A failed pass stopped at a kept line that does not decode: the failure
      carries that line's number, its text and its error, every kept line before
      it decodes, and the instructions are theirs. */
  lemma {:induction false} PassFailure(decode: LineDecoder, lines: seq<string>, first: nat)
    requires Pass(decode, lines, first).failure.Some?
    ensures var d := Pass(decode, lines, first);
            var f := d.failure.value;
            var j := f.lineNumber - first;
            && first <= f.lineNumber < first + |lines|
            && f.line == lines[j] && Kept(lines[j])
            && decode(lines[j]) == Err(f.error)
            && AllDecode(decode, lines[..j])
            && DecodedAs(decode, lines[..j], d.instrs)
    decreases |lines|
  {
    var d := Pass(decode, lines, first);
    var tail := lines[1..];
    if Kept(lines[0]) && decode(lines[0]).Err? {
      assert lines[..0] == [];
    } else {
      var rest := Pass(decode, tail, first + 1);
      PassFailure(decode, tail, first + 1);
      var j := rest.failure.value.lineNumber - first;
      var pre := lines[..j];
      assert pre[1..] == tail[..j - 1];
      assert pre[0] == lines[0];
      HeadAndTail(decode, pre);
      ConsDecodedAs(decode, pre, d.instrs, rest.instrs);
    }
  }

  /** A run whose head is skipped or decodes: every kept line of it decodes iff
      every kept line of its tail does. */
  lemma HeadAndTail(decode: LineDecoder, lines: seq<string>)
    requires |lines| >= 1
    requires !Kept(lines[0]) || decode(lines[0]).Ok?
    ensures AllDecode(decode, lines) <==> AllDecode(decode, lines[1..])
  {
    if AllDecode(decode, lines) {
      forall j | 0 <= j < |lines| - 1 && Kept(lines[1..][j]) ensures decode(lines[1..][j]).Ok? {
        assert lines[1..][j] == lines[j + 1];
      }
    }
    if AllDecode(decode, lines[1..]) {
      forall j | 0 < j < |lines| && Kept(lines[j]) ensures decode(lines[j]).Ok? {
        assert lines[j] == lines[1..][j - 1];
      }
    }
  }

  /** `DecodedAs` of a non-empty run, from its head and its tail. */
  lemma ConsDecodedAs(decode: LineDecoder, lines: seq<string>, instrs: seq<Instr>, rest: seq<Instr>)
    requires |lines| >= 1
    requires !Kept(lines[0]) || decode(lines[0]).Ok?
    requires instrs == (if Kept(lines[0]) then [decode(lines[0]).value] + rest else rest)
    requires DecodedAs(decode, lines[1..], rest)
    ensures DecodedAs(decode, lines, instrs)
  {
    if Kept(lines[0]) {
      var kept := KeptLines(lines);
      assert kept == [lines[0]] + KeptLines(lines[1..]);
      forall j | 0 < j < |instrs| ensures decode(kept[j]) == Ok(instrs[j]) {
        assert kept[j] == KeptLines(lines[1..])[j - 1];
      }
    } else {
      assert KeptLines(lines) == KeptLines(lines[1..]);
    }
  }

  /** Every instruction of a pass is what `decode` made of some kept line. */
  lemma PassSource(decode: LineDecoder, lines: seq<string>, first: nat, j: nat)
    returns (line: string)
    requires j < |Pass(decode, lines, first).instrs|
    ensures Kept(line) && decode(line) == Ok(Pass(decode, lines, first).instrs[j])
  {
    var d := Pass(decode, lines, first);
    var covered: seq<string>;
    if d.failure.None? {
      PassSucceeds(decode, lines, first);
      covered := lines;
    } else {
      PassFailure(decode, lines, first);
      covered := lines[..d.failure.value.lineNumber - first];
    }
    line := KeptLines(covered)[j];
  }

  /** What the loader decodes is well formed, since `ParseInstruction` only
      accepts well-formed instructions. */
  lemma DecodedWellFormed(lines: seq<string>, first: nat)
    ensures var instrs := DecodeLines(lines, first).instrs;
            forall j :: 0 <= j < |instrs| ==> WellFormed(instrs[j])
  {
    var instrs := DecodeLines(lines, first).instrs;
    forall j | 0 <= j < |instrs| ensures WellFormed(instrs[j]) {
      var line := PassSource(ParseInstruction, lines, first, j);
    }
  }

  /** A program without kept lines loads as all `HALT`. */
  lemma NothingKept(m: Machine, cap: Int32, text: string)
    requires 1 <= cap
    requires KeptLines(Lines(text)) == []
    ensures |DecodeLines(Lines(text), 1).instrs| <= cap as int
    ensures Loaded(m, cap, text).program == Halts(cap as int)
  {
    var lines := Lines(text);
    assert AllDecode(ParseInstruction, lines) by {
      forall j | 0 <= j < |lines| && Kept(lines[j]) ensures false {
        KeptLinesIncludes(lines, j);
      }
    }
    PassSucceeds(ParseInstruction, lines, 1);
  }

  /** A kept line is among the kept lines. */
  lemma {:induction false} KeptLinesIncludes(lines: seq<string>, j: nat)
    requires j < |lines| && Kept(lines[j])
    ensures lines[j] in KeptLines(lines)
  {
    if j > 0 {
      KeptLinesIncludes(lines[1..], j - 1);
    }
  }

  /** A loaded machine is ready to run: valid, running, registers cleared, the
      top data address in data slot 0, and the decoded instructions from slot 0
      followed by `HALT`s. */
  lemma LoadedReady(m: Machine, cap: Int32, text: string)
    requires 1 <= cap
    requires |DecodeLines(Lines(text), 1).instrs| <= cap as int
    ensures var r := Loaded(m, cap, text);
            var instrs := DecodeLines(Lines(text), 1).instrs;
            && Valid(r) && r.state == Running
            && (forall k :: 0 <= k < NumRegs ==> r.registers[k] == 0)
            && r.data[0] == cap - 1
            && r.program[..|instrs|] == instrs
            && (forall k :: |instrs| <= k < cap as int ==> r.program[k] == HaltInstr)
  {
    var r := Loaded(m, cap, text);
    var instrs := DecodeLines(Lines(text), 1).instrs;
    DecodedWellFormed(Lines(text), 1);
    forall k | 0 <= k < |r.program| ensures OperandsInRange(r.program[k]) {
      if k < |instrs| {
        assert r.program[k] == r.program[..|instrs|][k];
      }
    }
  }
}
