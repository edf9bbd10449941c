/** The boot console as the utilities drive it: lines arrive already decoded,
    commands are appended to a log. `enter_bootrom_console_and_get_ready`
    and `wait_for_realtek_cli` become classifiers over the lines read, with
    "the stream ended" in place of waiting forever. */
module Serial {
  import opened Wrappers
  import opened Text
  import opened Commands

  /** The serial console: the lines it will still deliver and every command
      written to it so far. */
  class Console {
    var input: seq<string>
    var log: seq<Command>

    constructor(lines: seq<string>)
      ensures input == lines && log == []
    {
      input := lines;
      log := [];
    }

    /** `console.write(Render(cmd).encode())`. */
    method Write(cmd: Command)
      modifies this`log
      ensures log == old(log) + [cmd]
    {
      log := log + [cmd];
    }

    /** `console.read_until()`: the next line, or `None` once the stream has ended. */
    method ReadLine() returns (line: Option<string>)
      modifies this`input
      ensures old(input) == [] ==> line == None && input == []
      ensures old(input) != [] ==> line == Some(old(input)[0]) && input == old(input)[1..]
    {
      if input == [] {
        line := None;
      } else {
        line := Some(input[0]);
        input := input[1..];
      }
    }

    /** `console.read(console.in_waiting)` when `pending` lines are buffered:
        they are discarded. */
    method Drain(pending: nat)
      modifies this`input
      ensures input == old(input)[Min(pending, |old(input)|)..]
    {
      input := input[Min(pending, |input|)..];
    }
  }

  /** The prompt of the ROM console and of the flasher. */
  const CLI_PROMPT: string := "<RealTek>"

  /** Text showing the gateway booted its operating system instead of stopping in ROM. */
  predicate IsBootText(line: string)
  {
    Contains(line, "rlxlinux login") || Contains(line, "Linux version")
  }

  /** Text showing the ROM console is there. */
  predicate IsBanner(line: string)
  {
    Contains(line, CLI_PROMPT) || Contains(line, "Enter ROM console")
  }

  /** A line that ends the wake-up loop one way or the other. */
  predicate Decides(line: string)
  {
    IsBootText(line) || IsBanner(line)
  }

  datatype Verdict =
    | OsBooted(at: nat)    // line `at` is the first deciding line, and it shows boot text
    | RomConsole(at: nat)  // line `at` is the first deciding line, and it shows the banner only
    | NoBanner             // no line decides

  /** The wake-up loop of `enter_bootrom_console_and_get_ready` from line `i` on. */
  function HandshakeFrom(lines: seq<string>, i: nat): Verdict
    decreases |lines| - i
  {
    if i >= |lines| then NoBanner
    else if IsBootText(lines[i]) then OsBooted(i)
    else if IsBanner(lines[i]) then RomConsole(i)
    else HandshakeFrom(lines, i + 1)
  }

  function Handshake(lines: seq<string>): Verdict
  {
    HandshakeFrom(lines, 0)
  }

  /** No line before `k` decides. */
  predicate UndecidedBefore(lines: seq<string>, k: nat)
    requires k <= |lines|
  {
    forall j :: 0 <= j < k ==> !Decides(lines[j])
  }

  lemma {:induction false} HandshakeFromSpec(lines: seq<string>, i: nat)
    requires i <= |lines| && UndecidedBefore(lines, i)
    ensures HandshakeFrom(lines, i).NoBanner? ==> UndecidedBefore(lines, |lines|)
    ensures !HandshakeFrom(lines, i).NoBanner? ==>
      var k := HandshakeFrom(lines, i).at;
      k < |lines| && UndecidedBefore(lines, k) && Decides(lines[k])
      && (HandshakeFrom(lines, i).OsBooted? <==> IsBootText(lines[k]))
    decreases |lines| - i
  {
    if i < |lines| && !Decides(lines[i]) {
      HandshakeFromSpec(lines, i + 1);
    }
  }

  /** The loop fails exactly when a boot-text line comes no later than the
      first banner line (within one line the boot text wins), succeeds
      exactly when a banner line comes first, and has no verdict when no
      line decides. */
  lemma HandshakeSpec(lines: seq<string>)
    ensures Handshake(lines).OsBooted? <==>
      exists k :: 0 <= k < |lines| && UndecidedBefore(lines, k) && IsBootText(lines[k])
    ensures Handshake(lines).RomConsole? <==>
      exists k :: 0 <= k < |lines| && UndecidedBefore(lines, k) && !IsBootText(lines[k]) && IsBanner(lines[k])
    ensures Handshake(lines).NoBanner? <==> UndecidedBefore(lines, |lines|)
  {
    HandshakeFromSpec(lines, 0);
    if !Handshake(lines).NoBanner? {
      var k := Handshake(lines).at;
      forall k' | 0 <= k' < |lines| && UndecidedBefore(lines, k') && Decides(lines[k'])
        ensures k' == k
      {
      }
    }
  }

  /** The verdict once the first `k` lines did not decide and line `k` (if any) is known. */
  lemma HandshakeAt(lines: seq<string>, k: nat)
    requires k <= |lines| && UndecidedBefore(lines, k)
    ensures k == |lines| ==> Handshake(lines) == NoBanner
    ensures k < |lines| && IsBootText(lines[k]) ==> Handshake(lines) == OsBooted(k)
    ensures k < |lines| && !IsBootText(lines[k]) && IsBanner(lines[k]) ==> Handshake(lines) == RomConsole(k)
  {
    HandshakeSkip(lines, 0, k);
  }

  lemma {:induction false} HandshakeSkip(lines: seq<string>, i: nat, k: nat)
    requires i <= k <= |lines| && UndecidedBefore(lines, k)
    ensures HandshakeFrom(lines, i) == HandshakeFrom(lines, k)
    decreases k - i
  {
    if i < k {
      assert !Decides(lines[i]);
      HandshakeSkip(lines, i + 1, k);
    }
  }

  /** `wait_for_realtek_cli` from line `i` on: the index of the first line
      holding the prompt. */
  function WaitCliFrom(lines: seq<string>, i: nat): (r: Option<nat>)
    ensures r.Some? ==> i <= r.value < |lines| && Contains(lines[r.value], CLI_PROMPT)
    decreases |lines| - i
  {
    if i >= |lines| then None
    else if Contains(lines[i], CLI_PROMPT) then Some(i)
    else WaitCliFrom(lines, i + 1)
  }

  function WaitCli(lines: seq<string>): Option<nat>
  {
    WaitCliFrom(lines, 0)
  }

  /** The wait stops at the first prompt line, and finds none only when no line holds it. */
  lemma {:induction false} WaitCliFromSpec(lines: seq<string>, i: nat)
    requires i <= |lines|
    ensures WaitCliFrom(lines, i).None? <==> forall j :: i <= j < |lines| ==> !Contains(lines[j], CLI_PROMPT)
    ensures WaitCliFrom(lines, i).Some? ==> forall j :: i <= j < WaitCliFrom(lines, i).value ==> !Contains(lines[j], CLI_PROMPT)
    decreases |lines| - i
  {
    if i < |lines| && !Contains(lines[i], CLI_PROMPT) {
      WaitCliFromSpec(lines, i + 1);
    }
  }

  lemma {:induction false} WaitCliSkip(lines: seq<string>, i: nat, k: nat)
    requires i <= k <= |lines| && forall j :: i <= j < k ==> !Contains(lines[j], CLI_PROMPT)
    ensures WaitCliFrom(lines, i) == WaitCliFrom(lines, k)
    decreases k - i
  {
    if i < k {
      WaitCliSkip(lines, i + 1, k);
    }
  }

  /** `console.write(b"u")`, `n` times. */
  function Us(n: nat): (r: seq<Command>)
    ensures |r| == n && forall i :: 0 <= i < n ==> r[i] == Raw("u")
  {
    seq(n, _ => Raw("u"))
  }

  /** What is written once the ROM console answered, in order. */
  const READY_COMMANDS: seq<Command> := [Raw("\n"), Raw("\n"), Raw("dbgmsg 3\n"), Raw("ri 0 1 1\n")]

  datatype Outcome =
    | NotReady  // the gateway booted its operating system: `False`
    | Ready     // the ROM console is up and its prompt was seen: `True`
    | Hung      // the lines ran out while the source would still be reading

  /** The whole of `enter_bootrom_console_and_get_ready` over the lines the
      console delivers, `pending` of them buffered (and dropped) after the first
      newline: the outcome, the strings written, and the lines left unread. */
  function BootromSession(lines: seq<string>, pending: nat): (Outcome, seq<Command>, seq<string>)
  {
    match Handshake(lines)
    case OsBooted(k) => if k < |lines| then (NotReady, Us(k + 2), lines[k + 1..]) else (NotReady, [], [])
    case NoBanner => (Hung, Us(|lines| + 2), [])
    case RomConsole(k) =>
      if k < |lines| then
        var rest := lines[k + 1..];
        var rest' := rest[Min(pending, |rest|)..];
        match WaitCli(rest')
        case None => (Hung, Us(k + 2) + READY_COMMANDS, [])
        case Some(m) => (Ready, Us(k + 2) + READY_COMMANDS, rest'[m + 1..])
      else (Hung, [], [])
  }

  /** Failure writes nothing but the wake-up key; success writes the wake-up
      keys followed by exactly the four ready commands. */
  lemma SessionWrites(lines: seq<string>, pending: nat)
    ensures BootromSession(lines, pending).0 == NotReady ==>
      forall i :: 0 <= i < |BootromSession(lines, pending).1| ==> BootromSession(lines, pending).1[i] == Raw("u")
    ensures BootromSession(lines, pending).0 == Ready ==>
      var w := BootromSession(lines, pending).1;
      |w| >= 6 && w[|w| - 4..] == READY_COMMANDS && forall i :: 0 <= i < |w| - 4 ==> w[i] == Raw("u")
  {
    HandshakeFromSpec(lines, 0);
  }

  /** The session fails exactly when boot text is seen no later than the
      first banner. */
  lemma SessionFailsIff(lines: seq<string>, pending: nat)
    ensures BootromSession(lines, pending).0 == NotReady <==>
      exists k :: 0 <= k < |lines| && UndecidedBefore(lines, k) && IsBootText(lines[k])
  {
    HandshakeSpec(lines);
    HandshakeFromSpec(lines, 0);
  }

  /** After success the session has consumed exactly the lines up to and
      including one that holds the prompt. */
  lemma SessionConsumesPrompt(lines: seq<string>, pending: nat)
    requires BootromSession(lines, pending).0 == Ready
    ensures var unread := BootromSession(lines, pending).2;
      |unread| < |lines| && unread == lines[|lines| - |unread|..]
      && Contains(lines[|lines| - |unread| - 1], CLI_PROMPT)
  {
    HandshakeFromSpec(lines, 0);
    assert Handshake(lines).RomConsole?;
    var k := Handshake(lines).at;
    assert k < |lines|;
    var rest := lines[k + 1..];
    var rest' := rest[Min(pending, |rest|)..];
    assert WaitCli(rest').Some?;
    var m := WaitCli(rest').value;
    var unread := rest'[m + 1..];
    assert BootromSession(lines, pending).2 == unread;
    assert rest' == lines[k + 1 + Min(pending, |rest|)..];
    assert unread == lines[k + 1 + Min(pending, |rest|) + m + 1..];
    assert lines[|lines| - |unread| - 1] == rest'[m];
  }

  /** `wait_for_realtek_cli`: read lines until one holds the prompt. */
  method WaitForRealtekCli(c: Console) returns (found: bool)
    modifies c
    ensures found == WaitCli(old(c.input)).Some?
    ensures found ==> c.input == old(c.input)[WaitCli(old(c.input)).value + 1..]
    ensures !found ==> c.input == []
    ensures c.log == old(c.log)
  {
    ghost var lines := c.input;
    var k := 0;
    while true
      invariant 0 <= k <= |lines| && c.input == lines[k..] && c.log == old(c.log)
      invariant forall j :: 0 <= j < k ==> !Contains(lines[j], CLI_PROMPT)
      decreases |c.input|
    {
      var line := c.ReadLine();
      WaitCliSkip(lines, 0, k);
      if line.None? {
        return false;
      }
      if Contains(line.value, CLI_PROMPT) {
        return true;
      }
      k := k + 1;
    }
  }

  /** One more wake-up key on the log. */
  lemma LogOneMoreU(log0: seq<Command>, k: nat)
    ensures log0 + Us(k + 1) + [Raw("u")] == log0 + Us(k + 2)
  {
    assert Us(k + 1) + [Raw("u")] == Us(k + 2);
  }

  /** The four ready commands written one by one. */
  lemma LogReady(log0: seq<Command>, us: seq<Command>)
    ensures log0 + us + [Raw("\n")] + [Raw("\n")] + [Raw("dbgmsg 3\n")] + [Raw("ri 0 1 1\n")] == log0 + (us + READY_COMMANDS)
  {
  }

  /** `enter_bootrom_console_and_get_ready`, with `pending` the number of
      lines buffered when it drains the console after the first newline. */
  method EnterBootromConsole(c: Console, pending: nat) returns (outcome: Outcome)
    modifies c
    ensures (outcome, c.log, c.input) == (BootromSession(old(c.input), pending).0,
                                          old(c.log) + BootromSession(old(c.input), pending).1,
                                          BootromSession(old(c.input), pending).2)
  {
    ghost var lines := c.input;
    ghost var log0 := c.log;
    c.Write(Raw("u"));
    var k := 0;
    while true
      invariant 0 <= k <= |lines| && c.input == lines[k..] && c.log == log0 + Us(k + 1)
      invariant UndecidedBefore(lines, k)
      decreases |c.input|
    {
      c.Write(Raw("u"));
      LogOneMoreU(log0, k);
      var line := c.ReadLine();
      HandshakeAt(lines, k);
      assert k < |lines| ==> line == Some(lines[k]) && c.input == lines[k + 1..];
      if line.None? {
        return Hung;
      }
      if IsBootText(line.value) {
        assert BootromSession(lines, pending) == (NotReady, Us(k + 2), lines[k + 1..]);
        assert c.input == lines[k + 1..] && c.log == log0 + Us(k + 2);
        return NotReady;
      }
      if IsBanner(line.value) {
        break;
      }
      k := k + 1;
    }
    c.Write(Raw("\n"));
    c.Drain(pending);
    c.Write(Raw("\n"));
    c.Write(Raw("dbgmsg 3\n"));
    c.Write(Raw("ri 0 1 1\n"));
    LogReady(log0, Us(k + 2));
    var found := WaitForRealtekCli(c);
    outcome := if found then Ready else Hung;
  }
}
