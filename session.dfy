/** The edit session of 7z-edit.py (`main`, lines 40-98): the archive is
    extracted into a temporary folder, the user edits it while the program
    waits for commands, and the folder is compressed back on "wq". The
    archiver, the terminal and the file system are outside the model: their
    answers are the `Environment` and the terminal `lines` handed to the
    session, and the archiver invocations it issues are recorded in order. */
module EditSession {

  import opened Options
  import opened Paths
  import opened Commands
  import opened Archiver

  /** What the world answers during one session. */
  datatype Environment = Environment(
    inputExists: bool,   // whether the archive named on the command line exists
    tempFolder: string,  // the folder the temporary-directory allocator hands out
    whereCode: int,      // exit code of the lookup for the archiver executable
    extractCode: int,    // exit code of the extraction
    compressCode: int)   // exit code of the compression

  /** The ways the `try` block (lines 48-92) ends by an exception. The
      `finally` removes the folder in every case. Line 94 catches and prints
      the first three and an `EOFError` of `input`, and `main` returns
      normally. A Ctrl-C at a `getpass` of "p" leaves `main` instead. */
  datatype Failure =
    | ArchiverNotFound   // the lookup for `7z` failed
    | ExtractionFailed   // extraction returned a non-zero code
    | CompressionFailed  // compression returned a non-zero code
    | InputClosed        // the loop's prompts got no more lines: `input` raised
                         // `EOFError`, or a `getpass` of "p" was left with Ctrl-C

  datatype Outcome =
    | InputMissing       // the archive does not exist; nothing else happens
    | Saved              // "wq" and the compression succeeded
    | Discarded          // "q"
    | Failed(failure: Failure)
    | PromptAborted      // the first `getpass` (line 44), before the `try`,
                         // was left with Ctrl-C: the exception leaves `main`

  /** How the command loop ends, the password it leaves, and the index of the
      first terminal line it did not read. */
  datatype LoopExit = SaveRequested | QuitRequested | LinesExhausted
  datatype LoopResult = LoopResult(exit: LoopExit, password: string, next: nat)

  /** Everything a session observably does. */
  datatype Trace = Trace(
    outcome: Outcome,
    calls: seq<seq<string>>,   // external commands, in the order they are run
    password: string,          // the password when the session ends
    linesRead: nat,            // terminal lines consumed
    workspaceCreated: bool)    // whether a temporary folder was made

  const WhereCall: seq<string> := ["where", Executable]

  predicate IsCompressCall(call: seq<string>) {
    |call| >= 2 && call[0] == Executable && call[1] == "a"
  }

  /** The command loop (lines 66-92), reading from line `i` with password
      `password`. "p" reads the new password and its confirmation from the
      next two lines. It ends only on "wq", on "q", or when the lines run out. */
  function CommandLoop(password: string, lines: seq<string>, i: nat): (r: LoopResult)
    requires i <= |lines|
    ensures i <= r.next <= |lines|
    ensures r.exit == LinesExhausted ==> r.next == |lines|
    decreases |lines| - i
  {
    if i == |lines| then LoopResult(LinesExhausted, password, i)
    else
      match ParseCommand(lines[i])
      case SaveAndExit => LoopResult(SaveRequested, password, i + 1)
      case ExitWithoutSaving => LoopResult(QuitRequested, password, i + 1)
      case ChangePassword =>
        if i + 3 > |lines| then LoopResult(LinesExhausted, password, |lines|)
        else CommandLoop(if lines[i + 1] == lines[i + 2] then lines[i + 1] else password, lines, i + 3)
      case Unrecognised => CommandLoop(password, lines, i + 1)
  }

  /** The body of the `try` block (lines 49-92) once the password has been
      read from the first line: the workspace exists throughout. */
  function EditSpec(password: string, input: string, target: string, env: Environment, lines: seq<string>): Trace
    requires 1 <= |lines|
  {
    if env.whereCode != 0 then
      Trace(Failed(ArchiverNotFound), [WhereCall], password, 1, true)
    else
      var extract := ExtractArgs(password, input, env.tempFolder);
      if env.extractCode != 0 then
        Trace(Failed(ExtractionFailed), [WhereCall, extract], password, 1, true)
      else
        var r := CommandLoop(password, lines, 1);
        match r.exit
        case QuitRequested => Trace(Discarded, [WhereCall, extract], r.password, r.next, true)
        case LinesExhausted => Trace(Failed(InputClosed), [WhereCall, extract], r.password, r.next, true)
        case SaveRequested =>
          var compress := CompressArgs(r.password, target, env.tempFolder);
          var outcome := if env.compressCode != 0 then Failed(CompressionFailed) else Saved;
          Trace(outcome, [WhereCall, extract, compress], r.password, r.next, true)
  }

  /** The whole session (lines 40-98). */
  function SessionSpec(input: string, output: Option<string>, env: Environment, lines: seq<string>): Trace
  {
    if !env.inputExists then Trace(InputMissing, [], "", 0, false)
    else if lines == [] then Trace(PromptAborted, [], "", 0, false)
    else EditSpec(lines[0], input, ResolveOutputPath(output, input), env, lines)
  }

  /** The loop stops only on "wq" or "q", which is then the last line it
      read and a line it read as a command (not an entry after "p"), or when
      the lines run out. */
  lemma {:induction false} LoopEndsOnCommand(password: string, lines: seq<string>, i: nat)
    requires i <= |lines|
    ensures var r := CommandLoop(password, lines, i);
      r.exit != LinesExhausted ==>
        && i < r.next
        && ReadAsCommand(lines, i, r.next - 1)
        && ParseCommand(lines[r.next - 1]) == (if r.exit == SaveRequested then SaveAndExit else ExitWithoutSaving)
    decreases |lines| - i
  {
    if i < |lines| {
      match ParseCommand(lines[i])
      case ChangePassword =>
        if i + 3 <= |lines| {
          var p := if lines[i + 1] == lines[i + 2] then lines[i + 1] else password;
          if lines[i + 1] == lines[i + 2] {
            ConfirmedResetSetsPassword(password, lines, i);
          } else {
            MismatchedResetKeepsPassword(password, lines, i);
          }
          LoopEndsOnCommand(p, lines, i + 3);
          var r := CommandLoop(p, lines, i + 3);
          if r.exit != LinesExhausted {
            assert ReadAsCommand(lines, i, r.next - 1);
          }
        }
      case Unrecognised =>
        UnrecognisedTokenIsNoOp(password, lines, i);
        LoopEndsOnCommand(password, lines, i + 1);
        var r := CommandLoop(password, lines, i + 1);
        if r.exit != LinesExhausted {
          assert ReadAsCommand(lines, i, r.next - 1);
        }
      case _ =>
        ExitCommandEndsLoop(password, lines, i);
    }
  }

  /** The loop started at line `i` reads line `j` as a command: `j` is where
      it starts, or it gets to `j` past a "p" and its two entries or past an
      unrecognised token. Entries of "p" are never commands. */
  ghost predicate ReadAsCommand(lines: seq<string>, i: nat, j: int)
    requires i <= |lines|
    ensures ReadAsCommand(lines, i, j) ==> i <= j < |lines|
    decreases |lines| - i
  {
    i < |lines| &&
    (j == i ||
     match ParseCommand(lines[i])
     case ChangePassword => i + 3 <= |lines| && ReadAsCommand(lines, i + 3, j)
     case Unrecognised => ReadAsCommand(lines, i + 1, j)
     case _ => false)
  }

  /** The loop started at line `i` commits line `k` as the password: line
      `k - 1` is read as "p" and the two entries after it are equal. */
  ghost predicate ConfirmedReset(lines: seq<string>, i: nat, k: int)
    requires i <= |lines|
  {
    ReadAsCommand(lines, i, k - 1) && ParseCommand(lines[k - 1]) == ChangePassword
    && k + 1 < |lines| && lines[k] == lines[k + 1]
  }

  /** The loop's password is the last one a "p" committed after the user
      typed it twice, or the one it started with if no "p" was confirmed. */
  lemma {:induction false} LoopPasswordIsLastReset(password: string, lines: seq<string>, i: nat)
    requires i <= |lines|
    ensures var r := CommandLoop(password, lines, i);
      || (r.password == password && forall k :: !ConfirmedReset(lines, i, k))
      || exists k :: && ConfirmedReset(lines, i, k) && r.password == lines[k]
                     && forall k' :: k < k' ==> !ConfirmedReset(lines, i, k')
    decreases |lines| - i
  {
    if i < |lines| {
      match ParseCommand(lines[i])
      case ChangePassword =>
        if i + 3 <= |lines| {
          var matched := lines[i + 1] == lines[i + 2];
          var p := if matched then lines[i + 1] else password;
          LoopPasswordIsLastReset(p, lines, i + 3);
          // past the first command, the loop from `i` reads what the loop from `i + 3` reads
          assert forall k :: ConfirmedReset(lines, i, k) <==>
            (k == i + 1 && matched) || ConfirmedReset(lines, i + 3, k);
        } else {
          assert forall k :: !ConfirmedReset(lines, i, k);
        }
      case Unrecognised =>
        LoopPasswordIsLastReset(password, lines, i + 1);
        assert forall k :: ConfirmedReset(lines, i, k) <==> ConfirmedReset(lines, i + 1, k);
      case _ =>
        assert forall k :: !ConfirmedReset(lines, i, k);
    }
  }

  /** The defining equation of `CommandLoop` for "wq" and "q": the loop ends
      right after the command, with the password it had. */
  lemma ExitCommandEndsLoop(password: string, lines: seq<string>, i: nat)
    requires i < |lines|
    requires ParseCommand(lines[i]) == SaveAndExit || ParseCommand(lines[i]) == ExitWithoutSaving
    ensures CommandLoop(password, lines, i)
      == LoopResult(if ParseCommand(lines[i]) == SaveAndExit then SaveRequested else QuitRequested, password, i + 1)
  {
  }

  /** The defining equation of `CommandLoop` for "p" with two equal entries:
      the password is replaced and the loop goes on after them. */
  lemma ConfirmedResetSetsPassword(password: string, lines: seq<string>, i: nat)
    requires i + 3 <= |lines| && ParseCommand(lines[i]) == ChangePassword
    requires lines[i + 1] == lines[i + 2]
    ensures CommandLoop(password, lines, i) == CommandLoop(lines[i + 1], lines, i + 3)
  {
  }

  /** The defining equation of `CommandLoop` for "p" with two different
      entries: the password is kept and the loop goes on after them. */
  lemma MismatchedResetKeepsPassword(password: string, lines: seq<string>, i: nat)
    requires i + 3 <= |lines| && ParseCommand(lines[i]) == ChangePassword
    requires lines[i + 1] != lines[i + 2]
    ensures CommandLoop(password, lines, i) == CommandLoop(password, lines, i + 3)
  {
  }

  /** The defining equation of `CommandLoop` for any other token: nothing
      changes and the loop goes on at the next line. */
  lemma UnrecognisedTokenIsNoOp(password: string, lines: seq<string>, i: nat)
    requires i < |lines| && ParseCommand(lines[i]) == Unrecognised
    ensures CommandLoop(password, lines, i) == CommandLoop(password, lines, i + 1)
  {
  }

  /** A missing archive ends the session before any prompt, folder or command. */
  lemma MissingInputReturnsEarly(input: string, output: Option<string>, env: Environment, lines: seq<string>)
    requires !env.inputExists
    ensures var t := SessionSpec(input, output, env, lines);
      t.outcome == InputMissing && t.linesRead == 0 && t.calls == [] && !t.workspaceCreated
  {
  }

  /** The temporary folder is made exactly when the archive exists and the
      password prompt was answered; every later failure happens with it in place. */
  lemma WorkspaceAfterPrompt(input: string, output: Option<string>, env: Environment, lines: seq<string>)
    ensures var t := SessionSpec(input, output, env, lines);
      t.workspaceCreated <==> env.inputExists && lines != []
    ensures var t := SessionSpec(input, output, env, lines);
      t.outcome == PromptAborted <==> env.inputExists && lines == []
  {
  }

  /** A missing archiver or a failed extraction ends the session before the
      command loop: no command is read and nothing is compressed, but the
      folder had already been made. */
  lemma FailuresBeforeLoop(input: string, output: Option<string>, env: Environment, lines: seq<string>)
    requires env.inputExists && lines != []
    ensures var t := SessionSpec(input, output, env, lines);
      env.whereCode != 0 ==>
        t.outcome == Failed(ArchiverNotFound) && t.calls == [WhereCall] && t.linesRead == 1 && t.workspaceCreated
    ensures var t := SessionSpec(input, output, env, lines);
      env.whereCode == 0 && env.extractCode != 0 ==>
        && t.outcome == Failed(ExtractionFailed)
        && t.calls == [WhereCall, ExtractArgs(lines[0], input, env.tempFolder)]
        && t.linesRead == 1 && t.workspaceCreated
  {
  }

  /** In the `try` block the archiver is asked to compress exactly when
      "wq" was read: "q" and every failure before "wq" write nothing. */
  lemma EditCompressesOnlyOnSave(password: string, input: string, target: string, env: Environment, lines: seq<string>)
    requires 1 <= |lines|
    ensures var t := EditSpec(password, input, target, env, lines);
      (exists j :: 0 <= j < |t.calls| && IsCompressCall(t.calls[j]))
        <==> (t.outcome == Saved || t.outcome == Failed(CompressionFailed))
  {
    var t := EditSpec(password, input, target, env, lines);
    assert !IsCompressCall(WhereCall);
    assert !IsCompressCall(ExtractArgs(password, input, env.tempFolder));
    if t.outcome == Saved || t.outcome == Failed(CompressionFailed) {
      var c := CompressArgs(t.password, target, env.tempFolder);
      CompressArgsShape(t.password, target, env.tempFolder);
      assert t.calls[2] == c && IsCompressCall(c);
    }
  }

  /** The archiver is asked to compress exactly when "wq" was read: "q" and
      every failure before "wq" write nothing. */
  lemma CompressOnlyOnSave(input: string, output: Option<string>, env: Environment, lines: seq<string>)
    ensures var t := SessionSpec(input, output, env, lines);
      (exists j :: 0 <= j < |t.calls| && IsCompressCall(t.calls[j]))
        <==> (t.outcome == Saved || t.outcome == Failed(CompressionFailed))
  {
    if env.inputExists && lines != [] {
      EditCompressesOnlyOnSave(lines[0], input, ResolveOutputPath(output, input), env, lines);
    }
  }

  /** The `try` block ends normally or by a failed compression only right
      after the command that asked for it: "q" leaves the lookup and the
      extraction as the only commands issued, and "wq" issues the compression
      of the final password into `target` as the last one. */
  lemma EditEndsOnCommand(password: string, input: string, target: string, env: Environment, lines: seq<string>)
    requires 1 <= |lines|
    ensures var t := EditSpec(password, input, target, env, lines);
      t.outcome == Discarded ==>
        && 2 <= t.linesRead
        && ParseCommand(lines[t.linesRead - 1]) == ExitWithoutSaving
        && t.calls == [WhereCall, ExtractArgs(password, input, env.tempFolder)]
    ensures var t := EditSpec(password, input, target, env, lines);
      (t.outcome == Saved || t.outcome == Failed(CompressionFailed)) ==>
        && 2 <= t.linesRead
        && ParseCommand(lines[t.linesRead - 1]) == SaveAndExit
        && t.calls[|t.calls| - 1] == CompressArgs(t.password, target, env.tempFolder)
  {
    LoopEndsOnCommand(password, lines, 1);
  }

  /** A save is the last thing the session does: "wq" was the last line read,
      and the archiver compresses with the session's final password into the
      resolved output name. */
  lemma SaveCompressesLast(input: string, output: Option<string>, env: Environment, lines: seq<string>)
    ensures var t := SessionSpec(input, output, env, lines);
      (t.outcome == Saved || t.outcome == Failed(CompressionFailed)) ==>
        && 2 <= t.linesRead
        && ParseCommand(lines[t.linesRead - 1]) == SaveAndExit
        && t.calls[|t.calls| - 1] == CompressArgs(t.password, ResolveOutputPath(output, input), env.tempFolder)
  {
    if env.inputExists && lines != [] {
      EditEndsOnCommand(lines[0], input, ResolveOutputPath(output, input), env, lines);
    }
  }

  /** "q" ends the session right after it is read, with nothing compressed. */
  lemma QuitEndsSession(input: string, output: Option<string>, env: Environment, lines: seq<string>)
    ensures var t := SessionSpec(input, output, env, lines);
      t.outcome == Discarded ==>
        && 2 <= t.linesRead
        && ParseCommand(lines[t.linesRead - 1]) == ExitWithoutSaving
        && t.calls == [WhereCall, ExtractArgs(lines[0], input, env.tempFolder)]
  {
    if env.inputExists && lines != [] {
      EditEndsOnCommand(lines[0], input, ResolveOutputPath(output, input), env, lines);
    }
  }

  /** The password a session ends with is the last one that a "p" of the
      command loop committed after the user typed it twice, or the one typed
      at the first prompt if no "p" was confirmed. */
  lemma SessionPasswordIsLastReset(input: string, output: Option<string>, env: Environment, lines: seq<string>)
    requires env.inputExists && env.whereCode == 0 && env.extractCode == 0 && lines != []
    ensures var t := SessionSpec(input, output, env, lines);
      || (t.password == lines[0] && forall k :: !ConfirmedReset(lines, 1, k))
      || exists k :: && ConfirmedReset(lines, 1, k) && t.password == lines[k]
                     && forall k' :: k < k' ==> !ConfirmedReset(lines, 1, k')
  {
    LoopPasswordIsLastReset(lines[0], lines, 1);
  }

  /** A session on an existing archive: the user types "hunter2" at the
      first prompt, resets the password to "abc" (typed twice, the command in
      capitals with a trailing blank), then saves. The archive is extracted
      with "hunter2" and compressed with "abc" into "secrets_edited.7z". */
  lemma ResetThenSaveScenario(env: Environment)
    requires env.inputExists && env.whereCode == 0 && env.extractCode == 0 && env.compressCode == 0
    ensures var t := SessionSpec("secrets.7z", None, env, ["hunter2", "P ", "abc", "abc", "wq"]);
      && t.outcome == Saved
      && t.password == "abc"
      && t.calls == [WhereCall,
                     ["7z", "x", "-phunter2", "secrets.7z", "-o" + env.tempFolder],
                     ["7z", "a", "-pabc", "secrets_edited.7z", env.tempFolder + "/*"]]
  {
    var lines := ["hunter2", "P ", "abc", "abc", "wq"];
    ScenarioLoop();
    ScenarioOutputName();
    assert SessionSpec("secrets.7z", None, env, lines) == EditSpec("hunter2", "secrets.7z", "secrets_edited.7z", env, lines);
    assert PasswordFlag("hunter2") == "-phunter2";
    assert PasswordFlag("abc") == "-pabc";
    assert ExtractArgs("hunter2", "secrets.7z", env.tempFolder)
        == ["7z", "x", "-phunter2", "secrets.7z", "-o" + env.tempFolder];
    assert CompressArgs("abc", "secrets_edited.7z", env.tempFolder)
        == ["7z", "a", "-pabc", "secrets_edited.7z", env.tempFolder + "/*"];
  }

  /** The command loop of the scenario above: "P " resets the password to
      "abc" and "wq" saves after the fifth line. */
  lemma ScenarioLoop()
    ensures CommandLoop("hunter2", ["hunter2", "P ", "abc", "abc", "wq"], 1) == LoopResult(SaveRequested, "abc", 5)
  {
    var lines := ["hunter2", "P ", "abc", "abc", "wq"];
    assert ParseCommand("P ") == ParseCommand("P") == ChangePassword;
    assert ParseCommand("wq") == SaveAndExit;
  }

  /** The output name of the scenario above. */
  lemma ScenarioOutputName()
    ensures ResolveOutputPath(None, "secrets.7z") == "secrets_edited.7z"
  {
    assert SplitExt("secrets.7z") == ("secrets", ".7z") by {
      RFindUnique("secrets.7z", '.', 7);
      LastSepUnique("secrets.7z", -1);
      assert HasNonDot("secrets.7z", -1, 7) by { assert "secrets.7z"[0] != '.'; }
      assert "secrets.7z"[..7] == "secrets" && "secrets.7z"[7..] == ".7z";
    }
  }

  /** The session as the script runs it: the password and the temporary
      folder are state that the steps update in turn. */
  class Session {
    var password: string
    var workspaceExists: bool
    ghost var workspaceCreated: bool
    var calls: seq<seq<string>>
    var linesRead: nat

    constructor ()
      ensures password == "" && !workspaceExists && !workspaceCreated
      ensures calls == [] && linesRead == 0
    {
      password := "";
      workspaceExists := false;
      workspaceCreated := false;
      calls := [];
      linesRead := 0;
    }

    /** One answer from the terminal, or None once the lines have run out.
        None stands for `input` raising `EOFError` or for a `getpass` prompt
        left with Ctrl-C. */
    method ReadLine(lines: seq<string>) returns (line: Option<string>)
      modifies this`linesRead
      ensures old(linesRead) < |lines| ==> line == Some(lines[old(linesRead)]) && linesRead == old(linesRead) + 1
      ensures old(linesRead) >= |lines| ==> line == None && linesRead == old(linesRead)
    {
      if linesRead < |lines| {
        line := Some(lines[linesRead]);
        linesRead := linesRead + 1;
      } else {
        line := None;
      }
    }

    /** `tempfile.mkdtemp()` (line 49). */
    method CreateWorkspace()
      modifies this`workspaceExists, this`workspaceCreated
      ensures workspaceExists && workspaceCreated
    {
      workspaceExists := true;
      workspaceCreated := true;
    }

    /** `cleanup` (lines 13-16): removes the folder if it is still there, so a
        second call removes nothing. */
    method Cleanup() returns (removed: bool)
      modifies this`workspaceExists
      ensures removed == old(workspaceExists)
      ensures !workspaceExists
    {
      removed := workspaceExists;
      if workspaceExists {
        workspaceExists := false;
      }
    }

    /** `check_executable("7z")` (lines 8-11). */
    method CheckExecutable(env: Environment) returns (found: bool)
      modifies this`calls
      ensures calls == old(calls) + [WhereCall]
      ensures found <==> env.whereCode == 0
    {
      calls := calls + [WhereCall];
      found := env.whereCode == 0;
    }

    /** The extraction (line 54). */
    method Extract(input: string, env: Environment) returns (code: int)
      modifies this`calls
      ensures calls == old(calls) + [ExtractArgs(password, input, env.tempFolder)]
      ensures code == env.extractCode
    {
      calls := calls + [ExtractArgs(password, input, env.tempFolder)];
      code := env.extractCode;
    }

    /** The compression (lines 71-74): the list is built, the password switch
        inserted when there is a password, and the command run. */
    method Compress(target: string, env: Environment) returns (code: int)
      modifies this`calls
      ensures calls == old(calls) + [CompressArgs(password, target, env.tempFolder)]
      ensures code == env.compressCode
    {
      var command := [Executable, "a", target, env.tempFolder + "/*"];
      if password != "" {
        command := ListInsert(command, 2, PasswordFlag(password));
      }
      calls := calls + [command];
      code := env.compressCode;
    }

    /** "p" (lines 82-90): the new password is committed only when the
        confirmation matches it. */
    method ResetPassword(entry: string, confirmation: string) returns (matched: bool)
      modifies this`password
      ensures matched <==> entry == confirmation
      ensures password == if matched then entry else old(password)
    {
      matched := entry == confirmation;
      if matched {
        password := entry;
      }
    }

    /** The `try` block (lines 52-92), entered with the workspace created and
        the password read. A `return` stands for `break` and for a `raise`
        caught at line 94 alike: both leave the block. */
    method Edit(input: string, target: string, env: Environment, lines: seq<string>) returns (outcome: Outcome)
      requires calls == [] && linesRead == 1 <= |lines| && password == lines[0]
      modifies this`password, this`calls, this`linesRead
      ensures EditSpec(lines[0], input, target, env, lines) == Trace(outcome, calls, password, linesRead, true)
    {
      var found := CheckExecutable(env);
      if !found {
        outcome := Failed(ArchiverNotFound);
        return;
      }
      var code := Extract(input, env);
      if code != 0 {
        outcome := Failed(ExtractionFailed);
        return;
      }
      ghost var extract := ExtractArgs(lines[0], input, env.tempFolder);
      while true
        invariant 1 <= linesRead <= |lines|
        invariant calls == [WhereCall, extract]
        invariant CommandLoop(password, lines, linesRead) == CommandLoop(lines[0], lines, 1)
        decreases |lines| - linesRead
      {
        var line := ReadLine(lines);
        if line.None? {
          outcome := Failed(InputClosed);
          return;
        }
        ghost var at := linesRead - 1;
        var command := ParseCommand(line.value);
        if command == SaveAndExit {
          code := Compress(target, env);
          if code != 0 {
            outcome := Failed(CompressionFailed);
            return;
          }
          outcome := Saved;
          return;
        } else if command == ExitWithoutSaving {
          outcome := Discarded;
          return;
        } else if command == ChangePassword {
          var entry := ReadLine(lines);
          if entry.None? {
            outcome := Failed(InputClosed);
            return;
          }
          var confirmation := ReadLine(lines);
          if confirmation.None? {
            outcome := Failed(InputClosed);
            return;
          }
          ghost var before := password;
          var matched := ResetPassword(entry.value, confirmation.value);
          if matched {
            ConfirmedResetSetsPassword(before, lines, at);
          } else {
            MismatchedResetKeepsPassword(before, lines, at);
          }
        } else {
          UnrecognisedTokenIsNoOp(password, lines, at);
        }
      }
    }

    /** `main` from line 40 on: the existence check, the password prompt, the
        output name, then the `try` block with `cleanup` in its `finally`. */
    method Run(input: string, output: Option<string>, env: Environment, lines: seq<string>) returns (outcome: Outcome)
      requires password == "" && !workspaceExists && !workspaceCreated
      requires calls == [] && linesRead == 0
      modifies this
      ensures SessionSpec(input, output, env, lines) == Trace(outcome, calls, password, linesRead, workspaceCreated)
      ensures !workspaceExists
    {
      if !env.inputExists {
        outcome := InputMissing;
        return;
      }
      var entered := ReadLine(lines);
      if entered.None? {
        outcome := PromptAborted;
        return;
      }
      password := entered.value;
      var target := ResolveOutputPath(output, input);
      CreateWorkspace();
      outcome := Edit(input, target, env, lines);
      var _ := Cleanup();
    }
  }
}
