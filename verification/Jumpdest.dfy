/** Jump-destination analysis: PUSH immediates and valid EIP-8024 immediates are skipped. */
module Jumpdest {
  import opened Collections

  const JUMPDEST: Byte := 0x5b

  predicate IsPush(opcode: Byte) {
    0x60 <= opcode <= 0x7f
  }

  /** DUPN, SWAPN and EXCHANGE take one immediate byte from Amsterdam on. */
  predicate IsDeepStack(opcode: Byte) {
    opcode == 0xe6 || opcode == 0xe7 || opcode == 0xe8
  }

  predicate ValidImmediate(opcode: Byte, immediate: Byte) {
    if opcode == 0xe8 then immediate <= 81 || immediate >= 128 else immediate <= 90 || immediate >= 128
  }

  /** The immediate behind a position; zero past the end of the code. */
  function ImmediateAt(code: seq<Byte>, i: nat): Byte {
    if i + 1 < |code| then code[i + 1] else 0
  }

  /** The length of the instruction at a position. */
  function StepAt(code: seq<Byte>, i: nat, amsterdam: bool): (step: nat)
    requires i < |code|
    ensures 1 <= step <= 33
  {
    if IsPush(code[i]) then code[i] - 0x5e
    else if amsterdam && IsDeepStack(code[i]) && ValidImmediate(code[i], ImmediateAt(code, i)) then 2
    else 1
  }

  /** Walking whole instructions from one position reaches another. */
  predicate Reaches(code: seq<Byte>, from: nat, i: nat, amsterdam: bool)
    decreases |code| - from
  {
    from == i || (from < |code| && from < i && Reaches(code, from + StepAt(code, from, amsterdam), i, amsterdam))
  }

  /** An instruction starts at i. */
  predicate IsBoundary(code: seq<Byte>, i: nat, amsterdam: bool) {
    i < |code| && Reaches(code, 0, i, amsterdam)
  }

  predicate IsDestination(code: seq<Byte>, i: nat, amsterdam: bool) {
    IsBoundary(code, i, amsterdam) && code[i] == JUMPDEST
  }

  /** One byte per code position. */
  function JumpTable(code: seq<Byte>, amsterdam: bool): seq<Byte> {
    seq(|code|, i requires 0 <= i < |code| => if IsDestination(code, i, amsterdam) then 1 else 0)
  }

  /** N(i, w) of section 9.4.3 of the Ethereum Yellow Paper: where the instruction behind the opcode w at i starts. */
  function NextInstruction(i: nat, w: Byte): (next: nat)
    ensures next > i
  {
    if 0x60 <= w <= 0x7f then i + (w - 0x60) + 2 else i + 1
  }

  /** D_J of that section: the destinations from position i on. */
  function Destinations(code: seq<Byte>, i: nat): set<nat>
    decreases |code| - i
  {
    if i >= |code| then {}
    else if code[i] == 0x5b then {i} + Destinations(code, NextInstruction(i, code[i]))
    else Destinations(code, NextInstruction(i, code[i]))
  }

  /** They are the JUMPDEST bytes at instruction boundaries. */
  lemma {:induction false} DestinationsAreBoundaries(code: seq<Byte>, from: nat, i: nat)
    ensures i in Destinations(code, from) <==> i < |code| && code[i] == 0x5b && Reaches(code, from, i, false)
    decreases |code| - from
  {
    if from < |code| {
      var next := from + StepAt(code, from, false);
      DestinationsAreBoundaries(code, next, i);
      if i <= from { DestinationsAhead(code, next); }
    }
  }

  lemma {:induction false} DestinationsAhead(code: seq<Byte>, from: nat)
    ensures forall i :: i in Destinations(code, from) ==> from <= i
    decreases |code| - from
  {
    if from < |code| { DestinationsAhead(code, NextInstruction(from, code[from])); }
  }

  /** The table is the one the Yellow Paper asks for, under either fork flag. */
  lemma TableIsYellowPaper(code: seq<Byte>, amsterdam: bool, i: nat)
    requires i < |code|
    ensures JumpTable(code, amsterdam)[i] == if i in Destinations(code, 0) then 1 else 0
  {
    ForkKeepsTable(code);
    DestinationsAreBoundaries(code, 0, i);
  }

  /** From a common position the two scans mark the same destinations: an immediate that only Amsterdam skips is
      neither a JUMPDEST nor a PUSH, so without the fork it is one instruction of length one. */
  lemma {:induction false} ScansAgree(code: seq<Byte>, from: nat, i: nat)
    requires i < |code| && code[i] == JUMPDEST
    ensures Reaches(code, from, i, true) <==> Reaches(code, from, i, false)
    decreases |code| - from
  {
    if from < i {
      var step, plain := StepAt(code, from, true), StepAt(code, from, false);
      ScansAgree(code, from + step, i);
      if step != plain {
        assert step == 2 && plain == 1 && ValidImmediate(code[from], code[from + 1]);
        assert StepAt(code, from + 1, false) == 1;
        assert Reaches(code, from + 1, i, false) <==> Reaches(code, from + 2, i, false);
      }
    }
  }

  /** The Amsterdam flag never changes the table. */
  lemma ForkKeepsTable(code: seq<Byte>)
    ensures JumpTable(code, true) == JumpTable(code, false)
  {
    forall i: nat | i < |code| ensures IsDestination(code, i, true) == IsDestination(code, i, false) {
      if code[i] == JUMPDEST { ScansAgree(code, 0, i); }
    }
  }

  /** It does change the boundaries: behind a DUPN the byte 0 is an immediate from Amsterdam on, and an
      instruction before. */
  lemma ForkMovesBoundaries()
    ensures IsBoundary([0xe6, 0], 1, false) && !IsBoundary([0xe6, 0], 1, true)
  {
    assert Reaches([0xe6, 0], 1, 1, false);
    assert StepAt([0xe6, 0], 0, true) == 2;
  }

  /** No position inside an instruction is a boundary. */
  lemma {:induction false} ReachesSkips(code: seq<Byte>, from: nat, at: nat, i: nat, amsterdam: bool)
    requires at < |code| && Reaches(code, from, at, amsterdam)
    ensures at < i ==> (Reaches(code, from, i, amsterdam) <==>
                        Reaches(code, at + StepAt(code, at, amsterdam), i, amsterdam))
    decreases |code| - from
  {
    if from != at { ReachesSkips(code, from + StepAt(code, from, amsterdam), at, i, amsterdam); }
  }

  /** How long an instruction is: a PUSHn has n immediate bytes, and from Amsterdam on a DUPN, SWAPN or EXCHANGE with
      a valid immediate has one. Nothing inside it is marked or starts an instruction, and the next one starts right
      behind it. */
  lemma InstructionSpan(code: seq<Byte>, i: nat, amsterdam: bool)
    requires IsBoundary(code, i, amsterdam)
    ensures var w := code[i];
            var immediates := if 0x60 <= w <= 0x7f then w - 0x5f
                              else if amsterdam && i + 1 < |code|
                                      && ((w in {0xe6, 0xe7} && (code[i + 1] <= 90 || code[i + 1] >= 128))
                                          || (w == 0xe8 && (code[i + 1] <= 81 || code[i + 1] >= 128))) then 1
                              else 0;
            && (forall j :: i < j <= i + immediates && j < |code| ==>
                  !IsBoundary(code, j, amsterdam) && JumpTable(code, amsterdam)[j] == 0)
            && (i + immediates + 1 < |code| ==> IsBoundary(code, i + immediates + 1, amsterdam))
  {
    var next := i + StepAt(code, i, amsterdam);
    forall j | i < j < next && j < |code| ensures !IsBoundary(code, j, amsterdam) {
      ReachesSkips(code, 0, i, j, amsterdam);
    }
    if next < |code| { ReachesSkips(code, 0, i, next, amsterdam); }
  }

  /** The first instruction starts at the first byte, and the bytes 0x5b that start an instruction are marked. */
  lemma MarkedStarts(code: seq<Byte>, i: nat, amsterdam: bool)
    requires i < |code|
    ensures IsBoundary(code, 0, amsterdam) && |JumpTable(code, amsterdam)| == |code|
    ensures JumpTable(code, amsterdam)[i] == if IsBoundary(code, i, amsterdam) && code[i] == 0x5b then 1 else 0
  {
  }

  /** What is marked when the scan stands at `position`. */
  ghost predicate Scanned(code: seq<Byte>, table: seq<Byte>, position: nat, amsterdam: bool) {
    && |table| == |code|
    && forall i :: 0 <= i < |code| ==>
         table[i] == if i < position && IsDestination(code, i, amsterdam) then 1 else 0
  }

  /** The scan stands at a boundary, and what it left behind is marked. */
  ghost predicate Scanning(code: seq<Byte>, table: seq<Byte>, position: nat, amsterdam: bool) {
    Reaches(code, 0, position, amsterdam) && Scanned(code, table, position, amsterdam)
  }

  lemma ScanStart(code: seq<Byte>, table: seq<Byte>, amsterdam: bool)
    requires |table| == |code| && forall i :: 0 <= i < |table| ==> table[i] == 0
    ensures Scanning(code, table, 0, amsterdam)
  {
  }

  /** One instruction further. */
  lemma ScanStep(code: seq<Byte>, table: seq<Byte>, position: nat, amsterdam: bool)
    requires position < |code| && Scanning(code, table, position, amsterdam)
    ensures var marked := if code[position] == JUMPDEST then table[position := 1] else table;
            Scanning(code, marked, position + StepAt(code, position, amsterdam), amsterdam)
  {
    var next := position + StepAt(code, position, amsterdam);
    ReachesSkips(code, 0, position, next, amsterdam);
    forall i | position < i < next && i < |code| ensures !IsDestination(code, i, amsterdam) {
      ReachesSkips(code, 0, position, i, amsterdam);
    }
  }

  lemma ScanEnds(code: seq<Byte>, table: seq<Byte>, position: nat, amsterdam: bool)
    requires position >= |code| && Scanning(code, table, position, amsterdam)
    ensures table == JumpTable(code, amsterdam)
  {
  }
}
