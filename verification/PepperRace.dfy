/**
  Creation of the local token pepper by any number of processes that share a file:
  the steps of each process, interleaved in any way, any of them possibly dying.
 */
module PepperRace {
  import opened Prelude
  import opened Text

  const MIN_BYTES := 32

  /** Length of a string in UTF-8. */
  function Utf8Length(s: string): nat {
    if s == "" then 0
    else
      var c := s[0] as int;
      (if c < 0x80 then 1 else if c < 0x800 then 2 else if c < 0x1_0000 then 3 else 4) + Utf8Length(s[1..])
  }

  /** One to four bytes for each character, by its code point. */
  lemma {:induction false} Utf8Bytes(s: string, c: char)
    ensures Utf8Length(s + [c]) == Utf8Length(s) +
      if c <= '\U{7F}' then 1 else if c <= '\U{7FF}' then 2 else if c <= '\U{FFFF}' then 3 else 4
  {
    if s == "" {
      assert s + [c] == [c] && [c][1..] == "";
    } else {
      assert (s + [c])[1..] == s[1..] + [c];
      Utf8Bytes(s[1..], c);
    }
  }

  /** What `secrets.token_urlsafe(48)` can return. */
  predicate IsToken(s: string) {
    |s| == 64 &&
    forall i :: 0 <= i < |s| ==>
      'a' <= s[i] <= 'z' || 'A' <= s[i] <= 'Z' || '0' <= s[i] <= '9' || s[i] == '-' || s[i] == '_'
  }

  lemma {:induction false} AsciiLength(s: string)
    requires forall i :: 0 <= i < |s| ==> s[i] < '\U{80}'
    ensures Utf8Length(s) == |s|
  {
    if s != "" {
      AsciiLength(s[1..]);
    }
  }

  /** A written token is read back as itself, and is long enough. */
  lemma {:induction false} TokenReadsBack(s: string)
    requires IsToken(s)
    ensures Strip(s + "\n") == s && Utf8Length(s) >= MIN_BYTES
  {
    assert !IsPySpace(s[0]) && !IsPySpace(s[63]);
    assert (s + "\n")[0] == s[0];
    assert StripLeft(s + "\n") == s + "\n";
    assert (s + "\n")[..64] == s;
    assert StripRight(s) == s;
    AsciiLength(s);
  }

  // ----- One process ----------------------------------------------------------

  datatype PepperError = TooShort | RequiredInProduction | FileInvalid

  /** The configured value decides everything except the local file's use. */
  function FromConfiguration(configured: Option<string>, production: bool): Option<Result<string, PepperError>> {
    if configured.Some? then
      var value := Strip(configured.value);
      Some(if Utf8Length(value) < MIN_BYTES then Err(TooShort) else Ok(value))
    else if production then Some(Err(RequiredInProduction))
    else None
  }

  function ReadExisting(content: string): Result<string, PepperError> {
    var value := Strip(content);
    if Utf8Length(value) < MIN_BYTES then Err(FileInvalid) else Ok(value)
  }

  class PepperFile {
    var content: Option<string>

    constructor (content: Option<string>)
      ensures this.content == content
    {
      this.content := content;
    }

    /** `resolve_mcp_token_pepper`, run by one process without interference. */
    method Resolve(configured: Option<string>, production: bool, generated: string)
      returns (result: Result<string, PepperError>)
      requires IsToken(generated)
      modifies this
      ensures configured.Some? || production ==>
        content == old(content) && FromConfiguration(configured, production) == Some(result)
      ensures configured.None? && !production ==>
        && content == (if old(content).Some? then old(content) else Some(generated + "\n"))
        && ReadExisting(content.value) == result
        && (old(content).None? ==> result == Ok(generated))
      ensures result ==
        if configured.Some? then
          (if Utf8Length(Strip(configured.value)) < 32 then Err(TooShort) else Ok(Strip(configured.value)))
        else if production then Err(RequiredInProduction)
        else if old(content).None? then Ok(generated)
        else if Utf8Length(Strip(old(content).value)) < 32 then Err(FileInvalid)
        else Ok(Strip(old(content).value))
    {
      var decided := FromConfiguration(configured, production);
      if decided.Some? {
        return decided.value;
      }
      TokenReadsBack(generated);
      if content.Some? {
        result := ReadExisting(content.value);
      } else {
        content := Some("");
        content := Some(generated + "\n");
        result := Ok(generated);
      }
    }
  }

  // ----- Many processes -------------------------------------------------------

  /** Where a process is; it draws `generated` before it opens the file. */
  datatype Phase =
    | Opening                 // about to open the file exclusively
    | Holding                 // has created the file, not yet written it
    | Written                 // has written its value
    | Reading                 // found the file there, about to read it
    | Returned(value: string)
    | Rejected                // raised because the file's value is too short
    | Dead

  datatype World = World(file: Option<string>, phases: seq<Phase>)

  /** A process takes its next step, or dies instead. */
  datatype Move = Move(process: nat, dies: bool)

  function Next(world: World, tokens: seq<string>, move: Move): (next: World)
    requires |tokens| == |world.phases|
    ensures |next.phases| == |world.phases|
  {
    if move.process >= |world.phases| then world
    else
      var i := move.process;
      match world.phases[i]
      case Opening =>
        if move.dies then world.(phases := world.phases[i := Dead])
        else if world.file.None? then World(Some(""), world.phases[i := Holding])
        else world.(phases := world.phases[i := Reading])
      case Holding =>
        if move.dies then world.(phases := world.phases[i := Dead])
        else World(Some(tokens[i] + "\n"), world.phases[i := Written])
      case Written =>
        world.(phases := world.phases[i := if move.dies then Dead else Returned(tokens[i])])
      case Reading =>
        if move.dies || world.file.None? then world.(phases := world.phases[i := Dead])
        else
          var read := ReadExisting(world.file.value);
          world.(phases := world.phases[i := if read.Ok? then Returned(read.value) else Rejected])
      case _ => world
  }

  function Run(world: World, tokens: seq<string>, moves: seq<Move>): (end: World)
    requires |tokens| == |world.phases|
    ensures |end.phases| == |world.phases|
    decreases |moves|
  {
    if moves == [] then world else Run(Next(world, tokens, moves[0]), tokens, moves[1..])
  }

  function Start(file: Option<string>, processes: nat): World {
    World(file, seq(processes, _ => Opening))
  }

  /**
    While the file is missing everyone is still opening it; while someone holds it
    it is empty and nobody has written; what was written or returned is in it.
   */
  ghost predicate Consistent(world: World, tokens: seq<string>) {
    && |tokens| == |world.phases|
    && (forall i :: 0 <= i < |tokens| ==> IsToken(tokens[i]))
    && (world.file.None? ==> forall i :: 0 <= i < |world.phases| ==> world.phases[i].Opening? || world.phases[i].Dead?)
    && (forall i :: 0 <= i < |world.phases| && world.phases[i].Holding? ==> world.file == Some(""))
    && (forall i, j :: 0 <= i < j < |world.phases| ==> !(world.phases[i].Holding? && world.phases[j].Holding?))
    && (forall i :: 0 <= i < |world.phases| && world.phases[i].Written? ==> world.file == Some(tokens[i] + "\n"))
    && (forall i :: 0 <= i < |world.phases| && world.phases[i].Returned? ==>
          world.file.Some? && ReadExisting(world.file.value) == Ok(world.phases[i].value))
  }

  lemma NothingIsTooShort()
    ensures ReadExisting("") == Err(FileInvalid)
  {
    assert Strip("") == "";
  }

  /** A phase that neither holds nor has written the file, and fits what is in it. */
  predicate Fits(world: World, phase: Phase) {
    || phase.Dead?
    || (world.file.Some? && (phase.Reading? || phase.Rejected? ||
          (phase.Returned? && ReadExisting(world.file.value) == Ok(phase.value))))
  }

  lemma PhaseKeeps(world: World, tokens: seq<string>, i: nat, phase: Phase)
    requires Consistent(world, tokens) && i < |world.phases| && Fits(world, phase)
    ensures Consistent(world.(phases := world.phases[i := phase]), tokens)
  {
  }

  /** Only with the file missing is it created, and then nobody is past opening it. */
  lemma CreationKeeps(world: World, tokens: seq<string>, i: nat)
    requires Consistent(world, tokens) && i < |world.phases| && world.file.None?
    ensures Consistent(World(Some(""), world.phases[i := Holding]), tokens)
  {
  }

  /** While someone holds the file, nobody has written it or returned from it. */
  lemma WriterIsAlone(world: World, tokens: seq<string>, i: nat)
    requires Consistent(world, tokens) && i < |world.phases| && world.phases[i].Holding?
    ensures forall j :: 0 <= j < |world.phases| ==> !world.phases[j].Written? && !world.phases[j].Returned?
    ensures forall j :: 0 <= j < |world.phases| && j != i ==> !world.phases[j].Holding?
  {
    NothingIsTooShort();
    assert forall j :: 0 <= j < |tokens| ==> |tokens[j] + "\n"| > 0;
  }

  lemma WriteKeeps(world: World, tokens: seq<string>, i: nat)
    requires Consistent(world, tokens) && i < |world.phases| && world.phases[i].Holding?
    ensures Consistent(World(Some(tokens[i] + "\n"), world.phases[i := Written]), tokens)
  {
    WriterIsAlone(world, tokens, i);
  }

  lemma NextKeeps(world: World, tokens: seq<string>, move: Move)
    requires Consistent(world, tokens)
    ensures Consistent(Next(world, tokens, move), tokens)
    ensures world.file.Some? && world.file.value != "" ==> Next(world, tokens, move).file == world.file
  {
    var i := move.process;
    if i < |world.phases| {
      PhaseKeeps(world, tokens, i, Dead);
      match world.phases[i]
      case Opening =>
        if world.file.None? {
          CreationKeeps(world, tokens, i);
        } else {
          PhaseKeeps(world, tokens, i, Reading);
        }
      case Holding => WriteKeeps(world, tokens, i);
      case Written =>
        TokenReadsBack(tokens[i]);
        PhaseKeeps(world, tokens, i, Returned(tokens[i]));
      case Reading =>
        if world.file.Some? {
          var read := ReadExisting(world.file.value);
          PhaseKeeps(world, tokens, i, if read.Ok? then Returned(read.value) else Rejected);
        }
      case _ =>
    }
  }

  lemma {:induction false} RunKeeps(world: World, tokens: seq<string>, moves: seq<Move>)
    requires Consistent(world, tokens)
    ensures Consistent(Run(world, tokens, moves), tokens)
    ensures world.file.Some? && world.file.value != "" ==> Run(world, tokens, moves).file == world.file
    decreases |moves|
  {
    if moves != [] {
      NextKeeps(world, tokens, moves[0]);
      RunKeeps(Next(world, tokens, moves[0]), tokens, moves[1..]);
    }
  }

  /** In every interleaving, all processes that return through the file return the same value. */
  lemma {:induction false} Agreement(file: Option<string>, tokens: seq<string>, moves: seq<Move>, i: nat, j: nat)
    requires forall k :: 0 <= k < |tokens| ==> IsToken(tokens[k])
    requires i < |tokens| && j < |tokens|
    ensures
      var world := Run(Start(file, |tokens|), tokens, moves);
      && |world.phases| == |tokens|
      && (world.phases[i].Returned? && world.phases[j].Returned? ==> world.phases[i].value == world.phases[j].value)
      && (world.phases[i].Returned? && file.Some? && file.value != "" ==>
            ReadExisting(file.value) == Ok(world.phases[i].value))
  {
    RunKeeps(Start(file, |tokens|), tokens, moves);
  }

  // ----- Reading too early ----------------------------------------------------

  /** A file that was missing at the start is empty or holds one process's whole token. */
  ghost predicate HoldsToken(world: World, tokens: seq<string>) {
    world.file.Some? && world.file.value != "" ==>
      exists k :: 0 <= k < |tokens| && world.file.value == tokens[k] + "\n"
  }

  lemma {:induction false} RunHoldsToken(world: World, tokens: seq<string>, moves: seq<Move>)
    requires Consistent(world, tokens) && HoldsToken(world, tokens)
    ensures HoldsToken(Run(world, tokens, moves), tokens)
    decreases |moves|
  {
    if moves != [] {
      NextKeeps(world, tokens, moves[0]);
      assert HoldsToken(Next(world, tokens, moves[0]), tokens);
      RunHoldsToken(Next(world, tokens, moves[0]), tokens, moves[1..]);
    }
  }

  /**
    A process that found the file there gets a value exactly when the creator's
    write is already in it; otherwise it raises, though nobody has failed.
   */
  lemma {:induction false} ReaderSucceedsExactly(tokens: seq<string>, moves: seq<Move>, i: nat)
    requires forall k :: 0 <= k < |tokens| ==> IsToken(tokens[k])
    requires i < |tokens| && Run(Start(None, |tokens|), tokens, moves).phases[i].Reading?
    ensures
      var world := Run(Start(None, |tokens|), tokens, moves);
      var next := Next(world, tokens, Move(i, false));
      && world.file.Some?
      && (next.phases[i].Returned? <==> world.file.value != "")
      && (next.phases[i].Rejected? <==> world.file.value == "")
  {
    var world := Run(Start(None, |tokens|), tokens, moves);
    RunKeeps(Start(None, |tokens|), tokens, moves);
    RunHoldsToken(Start(None, |tokens|), tokens, moves);
    NothingIsTooShort();
    if world.file.value != "" {
      var k :| 0 <= k < |tokens| && world.file.value == tokens[k] + "\n";
      TokenReadsBack(tokens[k]);
    }
  }

  /** Two processes, neither of which dies: one reads between the other's creation and write, and raises. */
  lemma {:induction false} EarlyReaderRaises(tokens: seq<string>)
    requires |tokens| >= 2
    ensures
      var world := Run(Start(None, |tokens|), tokens,
                       [Move(0, false), Move(1, false), Move(1, false), Move(0, false), Move(0, false)]);
      world.phases[0] == Returned(tokens[0]) && world.phases[1] == Rejected
  {
    NothingIsTooShort();
    var met := Next(Next(Start(None, |tokens|), tokens, Move(0, false)), tokens, Move(1, false));
    assert met.file == Some("") && met.phases[0] == Holding && met.phases[1] == Reading;
    var raised := Next(met, tokens, Move(1, false));
    assert raised.phases[0] == Holding && raised.phases[1] == Rejected;
    var returned := Next(Next(raised, tokens, Move(0, false)), tokens, Move(0, false));
    assert returned.phases[0] == Returned(tokens[0]) && returned.phases[1] == Rejected;
    FiveMoves(Start(None, |tokens|), tokens, Move(0, false), Move(1, false), Move(1, false), Move(0, false),
        Move(0, false));
  }

  lemma {:induction false} FiveMoves(world: World, tokens: seq<string>, a: Move, b: Move, c: Move, d: Move, e: Move)
    requires |tokens| == |world.phases|
    ensures Run(world, tokens, [a, b, c, d, e]) ==
            Next(Next(Next(Next(Next(world, tokens, a), tokens, b), tokens, c), tokens, d), tokens, e)
  {
    assert [a, b, c, d, e][1..] == [b, c, d, e] && [b, c, d, e][1..] == [c, d, e];
    assert [c, d, e][1..] == [d, e] && [d, e][1..] == [e] && [e][1..] == [];
    var second := Next(Next(world, tokens, a), tokens, b);
    assert Run(world, tokens, [a, b, c, d, e]) == Run(second, tokens, [c, d, e]);
    var fourth := Next(Next(second, tokens, c), tokens, d);
    assert Run(second, tokens, [c, d, e]) == Run(fourth, tokens, [e]);
  }

  /** The file is empty and its creator is gone. */
  ghost predicate Abandoned(world: World) {
    && world.file == Some("")
    && forall i :: 0 <= i < |world.phases| ==>
      !world.phases[i].Holding? && !world.phases[i].Written? && !world.phases[i].Returned?
  }

  /** If the creator dies before its write, nobody ever gets a value again. */
  lemma {:induction false} AbandonedForever(world: World, tokens: seq<string>, moves: seq<Move>)
    requires |tokens| == |world.phases| && Abandoned(world)
    ensures Abandoned(Run(world, tokens, moves))
    decreases |moves|
  {
    if moves != [] {
      NothingIsTooShort();
      AbandonedForever(Next(world, tokens, moves[0]), tokens, moves[1..]);
    }
  }

  /** Such a death is possible from the start. */
  lemma {:induction false} CreatorMayDie(tokens: seq<string>)
    requires |tokens| >= 1
    ensures Abandoned(Run(Start(None, |tokens|), tokens, [Move(0, false), Move(0, true)]))
  {
    var moves := [Move(0, false), Move(0, true)];
    assert moves[1..] == [Move(0, true)] && moves[1..][1..] == [];
    var created := Next(Start(None, |tokens|), tokens, moves[0]);
    var dead := Next(created, tokens, moves[1]);
    assert Run(created, tokens, moves[1..]) == Run(dead, tokens, []);
  }
}
