/**
 * `prepa.js`: the command line. `prepa <command> --replace <directory>` is checked in a
 * fixed order, the first failed check ends the process with status 1, and a valid command
 * line dispatches to the steps of the command. Whether a path is an existing directory
 * is the parameter `isDirectory`.
 */
module Prepa {
  import opened Wrappers

  /** The five commands. */
  datatype Command = Go | Min | Hash | Rename | Zip

  /** Why the process exits with status 1. */
  datatype CliError =
    | NoArguments
    | UnrecognizedCommand(cmd: string)
    | MissingFlag
    | UnrecognizedFlag(flag: string)
    | MissingDirectory
    | InvalidDirectory(dir: string)
    | UnexpectedArguments

  /** The end of argument checking: an exit with a message, or a command run on a directory. */
  datatype Outcome = Exit(error: CliError) | Dispatch(cmd: Command, dir: string)

  /** The recognised command names. */
  function CommandOf(name: string): (c: Option<Command>)
    ensures c.Some? <==> name in ["go", "min", "hash", "rename", "zip"]
  {
    if name == "go" then Some(Go)
    else if name == "min" then Some(Min)
    else if name == "hash" then Some(Hash)
    else if name == "rename" then Some(Rename)
    else if name == "zip" then Some(Zip)
    else None
  }

  /** The name each command is typed as: the inverse of `CommandOf`. */
  function NameOf(c: Command): (name: string)
    ensures CommandOf(name) == Some(c)
  {
    match c
    case Go => "go"
    case Min => "min"
    case Hash => "hash"
    case Rename => "rename"
    case Zip => "zip"
  }

  /** `CommandOf` recognises exactly the names `NameOf` gives. */
  lemma CommandOfNameOf(name: string)
    requires CommandOf(name).Some?
    ensures NameOf(CommandOf(name).value) == name
  {
  }

  /** `s.startsWith("-")`. */
  predicate StartsWithDash(s: string)
  {
    |s| > 0 && s[0] == '-'
  }

  /** The only accepted form: a command, `--replace`, an existing directory, and nothing after it. */
  predicate WellFormed(args: seq<string>, isDirectory: string -> bool)
  {
    |args| == 3 && CommandOf(args[0]).Some? && args[1] == "--replace" && isDirectory(args[2])
  }

  /**
   * The top level of `prepa.js`: each check in turn, the first failure wins. Every outcome
   * is stated by exactly when it happens, so the checks' order shows in the conditions.
   */
  method ParseArgs(args: seq<string>, isDirectory: string -> bool) returns (outcome: Outcome)
    ensures outcome == Exit(NoArguments) <==> |args| == 0
    ensures (outcome.Exit? && outcome.error.UnrecognizedCommand?) <==>
      |args| >= 1 && CommandOf(args[0]).None?
    ensures outcome.Exit? && outcome.error.UnrecognizedCommand? ==> outcome.error.cmd == args[0]
    ensures outcome == Exit(MissingFlag) <==>
      |args| >= 1 && CommandOf(args[0]).Some? && (|args| == 1 || !StartsWithDash(args[1]))
    ensures (outcome.Exit? && outcome.error.UnrecognizedFlag?) <==>
      |args| >= 2 && CommandOf(args[0]).Some? && StartsWithDash(args[1]) && args[1] != "--replace"
    ensures outcome.Exit? && outcome.error.UnrecognizedFlag? ==> outcome.error.flag == args[1]
    ensures outcome == Exit(MissingDirectory) <==>
      |args| == 2 && CommandOf(args[0]).Some? && args[1] == "--replace"
    ensures (outcome.Exit? && outcome.error.InvalidDirectory?) <==>
      |args| >= 3 && CommandOf(args[0]).Some? && args[1] == "--replace" && !isDirectory(args[2])
    ensures outcome.Exit? && outcome.error.InvalidDirectory? ==> outcome.error.dir == args[2]
    ensures outcome == Exit(UnexpectedArguments) <==>
      |args| > 3 && CommandOf(args[0]).Some? && args[1] == "--replace" && isDirectory(args[2])
    ensures outcome.Dispatch? <==> WellFormed(args, isDirectory)
    ensures outcome.Dispatch? ==> CommandOf(args[0]) == Some(outcome.cmd) && outcome.dir == args[2]
  {
    if |args| <= 0 {
      return Exit(NoArguments);
    }
    var cmd := args[0];
    var command := CommandOf(cmd);
    if command.None? {
      return Exit(UnrecognizedCommand(cmd));
    }
    if |args| <= 1 || !StartsWithDash(args[1]) {
      return Exit(MissingFlag);
    }
    var flag := args[1];
    if flag != "--replace" {
      return Exit(UnrecognizedFlag(flag));
    }
    if |args| <= 2 {
      return Exit(MissingDirectory);
    }
    var dir := args[2];
    if !isDirectory(dir) {
      return Exit(InvalidDirectory(dir));
    }
    if |args| > 3 {
      return Exit(UnexpectedArguments);
    }
    return Dispatch(command.value, dir);
  }

  /** The passes a command runs on the directory. */
  datatype Step = RunMin | RunHash | RunZip

  /** A pass's place in `go`. */
  function Rank(s: Step): nat
  {
    match s
    case RunMin => 0
    case RunHash => 1
    case RunZip => 2
  }

  /**
   * The `switch` and `go`: `go` awaits min, then hash, then zip; `hash` and `rename` both
   * call `hash.run(dir, …)`, whose second argument is ignored, so they run the same pass.
   */
  function Steps(c: Command): (s: seq<Step>)
    ensures 1 <= |s| <= 3
    ensures forall i, j :: 0 <= i < j < |s| ==> Rank(s[i]) < Rank(s[j])
    ensures c == Go <==> |s| == 3
    ensures (c == Hash || c == Rename) <==> s == [RunHash]
    ensures c == Min <==> s == [RunMin]
    ensures c == Zip <==> s == [RunZip]
  {
    match c
    case Go => [RunMin, RunHash, RunZip]
    case Min => [RunMin]
    case Hash => [RunHash]
    case Rename => [RunHash]
    case Zip => [RunZip]
  }
}
