/** The argument lists handed to the external archiver `7z`
    (7z-edit.py, lines 54 and 71-73). Running the archiver is not part of
    this model; the session records these lists in the order it issues them. */
module Archiver {

  import opened Options

  const Executable: string := "7z"

  /** The archiver's password switch: "-p" immediately followed by the password. */
  function PasswordFlag(password: string): string {
    "-p" + password
  }

  predicate IsPasswordSwitch(arg: string) {
    |arg| >= 2 && arg[0] == '-' && arg[1] == 'p'
  }

  /** Python's `list.insert(i, x)` for an index that is not negative: `x` lands
      at index `i`, or at the end when `i` is past it. */
  function ListInsert<T>(s: seq<T>, i: nat, x: T): (r: seq<T>)
    ensures |r| == |s| + 1
    ensures i <= |s| ==> r[i] == x && r[..i] + r[i + 1..] == s
    ensures i > |s| ==> r == s + [x]
  {
    if i <= |s| then s[..i] + [x] + s[i..] else s + [x]
  }

  /** `7z x -p<password> <archive> -o<folder>`: the password switch is always
      present, even when the password is empty. */
  function ExtractArgs(password: string, archive: string, folder: string): seq<string> {
    [Executable, "x", PasswordFlag(password), archive, "-o" + folder]
  }

  /** `7z a <archive> <pattern>`, where the pattern names everything in the
      folder, with the password switch inserted at index 2 only when the
      password is not empty. */
  function CompressArgs(password: string, archive: string, folder: string): seq<string> {
    var command := [Executable, "a", archive, folder + "/*"];
    if password != "" then ListInsert(command, 2, PasswordFlag(password)) else command
  }

  /** An assumption about `7z` that the script does not state: the archiver
      takes its password from the first argument that starts with "-p" (lower
      case, compared exactly), and the password is the rest of that argument. */
  function PasswordSwitch(args: seq<string>): (r: Option<string>)
    ensures r.Some? <==> exists k :: 0 <= k < |args| && IsPasswordSwitch(args[k])
    ensures r.Some? ==>
      exists k :: && 0 <= k < |args| && args[k] == PasswordFlag(r.value)
                  && forall j :: 0 <= j < k ==> !IsPasswordSwitch(args[j])
  {
    if args == [] then None
    else if IsPasswordSwitch(args[0]) then
      assert args[0] == PasswordFlag(args[0][2..]);
      Some(args[0][2..])
    else
      var r := PasswordSwitch(args[1..]);
      assert forall k :: 0 < k < |args| ==> args[k] == args[1..][k - 1];
      assert r.Some? ==> exists k :: && 0 < k < |args| && args[k] == PasswordFlag(r.value)
                                     && forall j :: 0 <= j < k ==> !IsPasswordSwitch(args[j]);
      r
  }

  /** Extraction always hands the session's password to the archiver, the
      empty one as a bare "-p". */
  lemma ExtractPassesPassword(password: string, archive: string, folder: string)
    ensures PasswordSwitch(ExtractArgs(password, archive, folder)) == Some(password)
  {
    var args := ExtractArgs(password, archive, folder);
    assert !IsPasswordSwitch(args[0]) && !IsPasswordSwitch(args[1]);
    assert args[1..][1..] == args[2..];
    assert IsPasswordSwitch(args[2]) && args[2][2..] == password;
    assert PasswordSwitch(args[2..]) == Some(password);
  }

  /** Compression hands the archiver a password exactly when the session's
      password is not empty (provided neither path itself looks like a
      password switch). */
  lemma CompressPassesPasswordIfSet(password: string, archive: string, folder: string)
    requires !IsPasswordSwitch(archive) && !IsPasswordSwitch(folder + "/*")
    ensures PasswordSwitch(CompressArgs(password, archive, folder))
            == if password == "" then None else Some(password)
  {
    var args := CompressArgs(password, archive, folder);
    assert !IsPasswordSwitch(args[0]) && !IsPasswordSwitch(args[1]);
    assert args[1..][1..] == args[2..];
    if password == "" {
      assert args[2..] == [archive, folder + "/*"];
      assert args[2..][1..] == [folder + "/*"];
      assert PasswordSwitch(args[2..][1..][1..]) == None;
    } else {
      assert IsPasswordSwitch(args[2]) && args[2][2..] == password;
      assert PasswordSwitch(args[2..]) == Some(password);
    }
  }

  /** The compression list is `7z a <archive> <pattern>` with the password
      switch, when there is one, as the only extra element, at index 2. */
  lemma CompressArgsShape(password: string, archive: string, folder: string)
    ensures |CompressArgs(password, archive, folder)| == (if password == "" then 4 else 5)
    ensures CompressArgs(password, archive, folder)[..2] == [Executable, "a"]
    ensures CompressArgs(password, archive, folder)[|CompressArgs(password, archive, folder)| - 2..] == [archive, folder + "/*"]
    ensures password != "" ==> CompressArgs(password, archive, folder)[2] == PasswordFlag(password)
  {
  }
}
