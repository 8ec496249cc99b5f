# 7z-edit: a verified model of the edit session

`7z-edit.py` lets a user edit the contents of a (possibly password-protected)
7z archive. It extracts the archive into a temporary folder, waits while the
user edits the files, and on `wq` compresses the folder into a new archive,
optionally under a new password. The temporary folder is removed on every exit.

This project models the script's core in Dafny:

- `options.dfy` (module `Options`): the optional `-o` value.
- `paths.dfy` (module `Paths`): the output name. An explicit `-o` is used as it is.
  Otherwise the name is the input's root, then `_edited`, then its extension.
  `os.path.splitext` is modelled as CPython's `genericpath._splitext`.
- `commands.dfy` (module `Commands`): the command tokens. `str.strip`, `str.lower`
  and the mapping of `wq`, `q` and `p` to commands.
- `archiver.dfy` (module `Archiver`): the argument lists given to `7z` for
  extraction and compression. It also has a reading of how the archiver finds
  the password switch in such a list.
- `session.dfy` (module `EditSession`): the session controller.
  - `CommandLoop`, `EditSpec` and `SessionSpec` are functions that specify the whole
    session, and the lemmas are proved about them.
  - The class `Session` runs the same steps imperatively. Its fields are
    `password`, `workspaceExists`, the external commands issued so far
    (`calls`) and the number of terminal lines read (`linesRead`).
  - `Session.Run` and `Session.Edit` are proved equal to the specification
    functions. `Run` is also proved to leave no workspace behind.

Everything outside the script is a parameter of the session. An `Environment`
holds whether the input exists, the folder `mkdtemp` returns, and the exit
codes of `where 7z`, the extraction and the compression. `lines` holds the
terminal answers (`getpass` and `input`) in the order the script reads them.
The session records every `where` and `7z` command as its argument list, so
"nothing was compressed" can be stated and proved. The file-browser launch
(`explorer <folder>`, 7z-edit.py:21, called at line 59) is not recorded.

The model follows the script on these points:

- The temporary folder is created before the archiver lookup, so a missing
  `7z` also creates and then removes a folder.
- The default output is always the `_edited` sibling name, which never equals
  the input (`DefaultOutputPath` is 7 characters longer). An explicit `-o` is
  used as given, even when it names the input archive itself.
- Extraction always passes `-p<password>`, even when the password is empty.
  Compression passes the switch only for a non-empty password.
- There is one workspace. There is no separate output workspace, no relocation
  step and no log file.
- A failure inside the `try` block is printed and `main` returns normally.
  The session's `Outcome` records which failure it was.
- The first password prompt comes before the `try`. If it raises, the exception
  leaves `main` and no folder exists yet: that outcome is `PromptAborted`.
- An empty `-o ""` is falsy in Python, so it falls back to the derived name.

## Model

| member | source | states |
|---|---|---|
| `Paths.RFind` | 7z-edit.py:46 | `rfind` for one character: the result is -1 or an index holding the character, and the character does not occur after it |
| `Paths.LastSep` | 7z-edit.py:46 | the last `\` or `/` of the path (or -1); no separator follows it |
| `Paths.SplitExt` | 7z-edit.py:46 | `splitext`: root + extension is the path. A non-empty extension starts with its only dot and has no separator. The dot lies after the last separator, and the final component has a non-dot before it. An empty extension means every dot of the final component is one of its leading dots |
| `Paths.DefaultOutputPath` | 7z-edit.py:46 | the derived name is 7 characters longer than the input, so it never equals the input |
| `Paths.ResolveOutputPath` | 7z-edit.py:35-46 | a non-empty `-o` value is used verbatim. An absent or empty one gives the derived name, which differs from the input |
| `Paths.DefaultKeepsExtension` | 7z-edit.py:46 | splitting the derived name again gives the input's root plus `_edited`, and the input's extension unchanged |
| `Commands.IsSpace` | 7z-edit.py:68 | the characters `str.strip()` removes, those for which `str.isspace()` holds; used by `Commands.TrimLeftSpec` and `Commands.TrimRightSpec` |
| `Commands.Normalize` | 7z-edit.py:68 | `input(":").strip().lower()`; its contract is stated by `Commands.StripSpec`, `Commands.LowerSpec` and `Commands.StripLower` |
| `Commands.CommandOfToken` | 7z-edit.py:69-92 | the comparisons of the normalised token with `wq`, `q` and `p`, anything else falling to the last `else`; `Commands.ParseCommandSpec` ties `ParseCommand` to it |
| `Commands.TrimLeft` | 7z-edit.py:68 | `lstrip()`; its contract is stated by `Commands.TrimLeftSpec` |
| `Commands.TrimRight` | 7z-edit.py:68 | `rstrip()`; its contract is stated by `Commands.TrimRightSpec` |
| `Commands.Strip` | 7z-edit.py:68 | `strip()`; its contract is stated by `Commands.StripSpec` and `Commands.StripIgnoresPadding` |
| `Commands.Lower` | 7z-edit.py:68 | `lower()`; its contract is stated by `Commands.LowerSpec` and `Commands.LowerIdempotent` |
| `Commands.LowerSpec` | 7z-edit.py:68 | lower-casing keeps the length and maps every character on its own |
| `Commands.LowerIdempotent` | 7z-edit.py:68 | lower-casing twice is lower-casing once |
| `Commands.ParseCommand` | 7z-edit.py:68-92 | the command a line stands for; its contract is stated by `Commands.ParseCommandSpec`, `Commands.ParseIgnoresCase` and `Commands.ParseIgnoresPadding` |
| `Commands.ParseCommandSpec` | 7z-edit.py:68-92 | the command read is exactly the one that comparing `strip().lower()` with `wq`, `q` and `p` selects (`CommandOfToken(Normalize(line))`) |
| `Commands.TrimLeftSpec` | 7z-edit.py:68 | left stripping removes a whitespace-only prefix and stops at the first non-whitespace character |
| `Commands.TrimRightSpec` | 7z-edit.py:68 | right stripping removes a whitespace-only suffix and stops at the last non-whitespace character |
| `Commands.StripSpec` | 7z-edit.py:68 | `strip()` returns a slice of the line with whitespace only on either side, and its ends are not whitespace |
| `Commands.StripIgnoresPadding` | 7z-edit.py:68 | wrapping a line in whitespace does not change what it strips to |
| `Commands.ParseIgnoresPadding` | 7z-edit.py:68-92 | lines that differ only in surrounding whitespace are the same command |
| `Commands.ParseIgnoresCase` | 7z-edit.py:68-92 | lines that are equal once lower-cased are the same command (`WQ`, `Wq` and `wq` all save) |
| `Commands.StripLower` | 7z-edit.py:68 | stripping and lower-casing commute |
| `Archiver.ListInsert` | 7z-edit.py:73 | `list.insert`: the element lands at the index (or at the end when the index is past it), and removing it gives back the original list |
| `Archiver.PasswordSwitch` | 7z-edit.py:54-74 | an assumption about `7z`, not something the script states: the archiver takes its password from the first argument that starts with a lower-case `-p`, and the password is the rest of that argument. There is one exactly when some argument is a `-p` switch. Then the argument it came from is `-p` followed by the value, and no argument before it is a `-p` switch |
| `Archiver.ExtractArgs` | 7z-edit.py:54 | the extraction list; its contract is stated by `Archiver.ExtractPassesPassword` |
| `Archiver.CompressArgs` | 7z-edit.py:71-73 | the compression list; its contract is stated by `Archiver.CompressArgsShape` and `Archiver.CompressPassesPasswordIfSet` |
| `Archiver.ExtractPassesPassword` | 7z-edit.py:54 | the extraction list always carries the session's password, and an empty password goes as a bare `-p` |
| `Archiver.CompressPassesPasswordIfSet` | 7z-edit.py:71-73 | the compression list carries a password exactly when the password is non-empty, and then it carries that password |
| `Archiver.CompressArgsShape` | 7z-edit.py:71-73 | the compression list is `7z a <out> <folder>/*`. It has 5 elements with `-p<password>` at index 2 when the password is non-empty, and 4 elements otherwise |
| `EditSession.CommandLoop` | 7z-edit.py:66-92 | the loop consumes lines from where it starts up to at most the end of the input. If it ends because the input ran out, all lines were read |
| `EditSession.LoopEndsOnCommand` | 7z-edit.py:66-81 | unless the input runs out, the loop stops right after a line it read as a command (not an entry after `p`). That line is the last one read, and it is `wq` for a save and `q` for a quit |
| `EditSession.ReadAsCommand` | 7z-edit.py:66-92 | the lines the loop reads as commands lie between where it starts and the end of the input; the entries after `p` are never read as commands |
| `EditSession.ConfirmedReset` | 7z-edit.py:82-88 | a reset the loop commits: line `k - 1` is read as a command (`ReadAsCommand`) and is `p`, and the two entries at `k` and `k + 1` exist and are equal. `ReadAsCommand`'s ensures keeps line `k - 1` within the input |
| `EditSession.LoopPasswordIsLastReset` | 7z-edit.py:82-90 | the loop's final password is the entry of the last `p` whose two entries matched, among the `p` commands the loop actually read. If there is none, it is the password the loop started with |
| `EditSession.ExitCommandEndsLoop` | 7z-edit.py:69-81 | defining equation of the loop: `wq` and `q` end it right after the command, with the password unchanged |
| `EditSession.ConfirmedResetSetsPassword` | 7z-edit.py:82-88 | defining equation of the loop: `p` with two equal entries continues after them with the new password |
| `EditSession.MismatchedResetKeepsPassword` | 7z-edit.py:86-90 | defining equation of the loop: `p` with different entries continues after them with the old password |
| `EditSession.UnrecognisedTokenIsNoOp` | 7z-edit.py:91-92 | defining equation of the loop: any other token continues at the next line with nothing changed |
| `EditSession.EditSpec` | 7z-edit.py:48-92 | the `try` block; its contract is stated by `EditSession.EditEndsOnCommand`, `EditSession.EditCompressesOnlyOnSave` and `EditSession.Session.Edit` |
| `EditSession.SessionSpec` | 7z-edit.py:40-98 | the whole session; its contract is stated by the session lemmas below and `EditSession.Session.Run` |
| `EditSession.EditEndsOnCommand` | 7z-edit.py:66-81 | in the `try` block, `q` is the last line read and leaves only the lookup and the extraction issued. `wq` is the last line read and issues the compression of the final password into the target last |
| `EditSession.EditCompressesOnlyOnSave` | 7z-edit.py:69-81 | in the `try` block a compression is issued exactly when the block saved or its compression failed |
| `EditSession.MissingInputReturnsEarly` | 7z-edit.py:40-42 | a missing archive ends the session before any prompt, folder or external command |
| `EditSession.WorkspaceAfterPrompt` | 7z-edit.py:40-49 | a temporary folder is made exactly when the archive exists and the first password prompt was answered. The session ends as `PromptAborted` exactly when the archive exists and that prompt got no line |
| `EditSession.FailuresBeforeLoop` | 7z-edit.py:49-56 | a failed lookup of `7z` or a failed extraction ends the session after the folder was made. No command is read and nothing is compressed |
| `EditSession.CompressOnlyOnSave` | 7z-edit.py:69-81 | a compression was issued exactly when the session saved or its compression failed. `q` and every earlier failure write nothing |
| `EditSession.SaveCompressesLast` | 7z-edit.py:69-78 | on a save, `wq` was the last line read. The last command compresses with the final password into the resolved output name |
| `EditSession.QuitEndsSession` | 7z-edit.py:79-81 | on `q`, `q` was the last line read and only the lookup and the extraction were issued |
| `EditSession.SessionPasswordIsLastReset` | 7z-edit.py:44-90 | once the command loop runs, the session's final password is the entry of the last `p` the loop read whose two entries matched. If there is none, it is the password typed at the first prompt |
| `EditSession.ResetThenSaveScenario` | 7z-edit.py:44-78 | `hunter2`, then `P `, `abc`, `abc`, `wq` extracts with `-phunter2` and compresses into `secrets_edited.7z` with `-pabc` |
| `EditSession.Session.ReadLine` | 7z-edit.py:44-85 | each prompt takes the next terminal line. Once the lines are used up it yields nothing. That stands for `input` raising `EOFError`, or for a `getpass` prompt left with Ctrl-C |
| `EditSession.Session.CreateWorkspace` | 7z-edit.py:49 | after `mkdtemp` the workspace exists |
| `EditSession.Session.Cleanup` | 7z-edit.py:13-16 | afterwards no workspace exists. It removes one only if one existed, so a second call removes nothing |
| `EditSession.Session.CheckExecutable` | 7z-edit.py:8-11 | issues `where 7z` and reports success exactly when its exit code is 0 |
| `EditSession.Session.Extract` | 7z-edit.py:54 | issues the extraction list with the current password |
| `EditSession.Session.Compress` | 7z-edit.py:70-74 | builds the list, inserts the password switch at index 2 only for a non-empty password, and issues exactly the compression list |
| `EditSession.Session.ResetPassword` | 7z-edit.py:82-90 | the password becomes the entry exactly when it matches the confirmation, and otherwise stays as it was |
| `EditSession.Session.Edit` | 7z-edit.py:52-92 | the `try` block produces exactly the outcome, commands, password and lines read that `EditSpec` specifies |
| `EditSession.Session.Run` | 7z-edit.py:40-98 | `main` produces exactly what `SessionSpec` specifies, and no workspace exists when it returns, on every path |

## Left out

- Running `7z` and `where` as processes. Only their exit codes are modelled, as inputs.
- `open_explorer` (7z-edit.py:18-30). It only launches a file browser, on a best-effort
  basis. On non-Windows systems it always fails, because `sys` is never imported and
  the `except` swallows the `NameError`. It does not affect the session.
- `argparse`, `print` and the messages the script prints. The prompts of `getpass`
  and `input` become the sequence `lines`.
- How a prompt ends without an answer is modelled only as "the lines ran out".
  On Windows, where the script runs (it looks for `7z` with `where`), only `input`
  (line 68) raises `EOFError` at the end of input. The `except` at line 94 catches
  and prints it, and the `finally` removes the folder. `getpass` reads the console
  directly and never raises `EOFError`. Running out of lines at a `getpass` (lines
  44, 83 and 85) stands for leaving that prompt with Ctrl-C instead.
- `KeyboardInterrupt` (Ctrl-C). It is not an `Exception`, so line 94 does not catch
  it. At line 44 it leaves `main` before any folder exists, which is the model's
  `PromptAborted`. At the two `getpass` prompts of `p` it leaves `main` after the
  `finally` has removed the folder. The model reports that case as
  `Failed(InputClosed)`, the same outcome as the caught `EOFError` of `input`. The
  calls, password and lines read are the same in both cases; only "caught and
  printed" against "propagated" is not distinguished.
- Real file-system behaviour is not modelled: how `mkdtemp` keeps names unique,
  what `shutil.rmtree` actually removes, and what `7z` writes. The workspace is one boolean.
- The case where `mkdtemp` itself raises and `temp_folder` is unbound in `finally`.
- The contents of archives and the round trip through the archiver.
- `Commands.Lower`: lower-cases ASCII letters only. Python's Unicode lower-casing
  is not modelled. No non-ASCII character lower-cases to `w`, `q` or `p`, so the
  command recognised is the same.
- `Paths.SplitExt`: uses the Windows separators `\` and `/` (`ntpath`). The POSIX
  `posixpath` treats only `/` as a separator.
- `Archiver.CompressPassesPasswordIfSet`: assumes that the output name and the
  folder pattern do not themselves start with `-p`. For example, an output literally
  named `-p` would read as an empty password switch.
