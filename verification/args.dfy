/** Command-line parsing: `ParseArgs` (parseargs/parseargs.go) and the older `parseArgs`
    (main.go), which share one state machine folded over the arguments. */
module Args {
  import opened Wrappers

  /** `InvokeArgs`; `files` is `None` where Go leaves the slice nil. */
  datatype InvokeArgs = InvokeArgs(action: string, isDry: bool, files: Option<seq<string>>)

  /** The `state` variable: "" (read a flag) or "file" (the next token is a file). */
  datatype Expect = Flag | FileValue

  datatype Scan = Scan(isDry: bool, files: Option<seq<string>>, state: Expect)

  const Start := Scan(false, None, Flag)
  const DefaultFile := "secrets.yml"

  /** One iteration of the loop over the arguments. */
  function Step(st: Scan, arg: string): Scan {
    if st.state == FileValue then Scan(st.isDry, Some(st.files.GetOr([]) + [arg]), Flag)
    else if arg == "--dry" then st.(isDry := true)
    else if arg == "--file" then st.(state := FileValue)
    else st
  }

  /** The loop, left to right. */
  function Fold(args: seq<string>): Scan
    decreases |args|
  {
    if |args| == 0 then Start else Step(Fold(args[..|args| - 1]), args[|args| - 1])
  }

  /** After reading `prefix`, the next token is taken as a file: the last token is a `--file`
      that was not itself taken as a file. */
  predicate AwaitsFile(prefix: seq<string>)
    decreases |prefix|
  {
    |prefix| > 0 && prefix[|prefix| - 1] == "--file" && !AwaitsFile(prefix[..|prefix| - 1])
  }

  /** The tokens taken as files, in command-line order. */
  function FileValues(args: seq<string>): seq<string>
    decreases |args|
  {
    if |args| == 0 then []
    else
      var prefix := args[..|args| - 1];
      FileValues(prefix) + (if AwaitsFile(prefix) then [args[|args| - 1]] else [])
  }

  /** The positional meaning of the loop: `--dry` counts unless taken as a file; the file list is
      the tokens taken as files, nil when there are none. */
  lemma {:induction false} FoldMeaning(args: seq<string>)
    ensures Fold(args).state == FileValue <==> AwaitsFile(args)
    ensures Fold(args).isDry <==> exists k :: 0 <= k < |args| && args[k] == "--dry" && !AwaitsFile(args[..k])
    ensures Fold(args).files == if FileValues(args) == [] then None else Some(FileValues(args))
    decreases |args|
  {
    if |args| > 0 {
      var prefix := args[..|args| - 1];
      FoldMeaning(prefix);
      assert forall k :: 0 <= k < |prefix| ==> prefix[k] == args[k] && prefix[..k] == args[..k];
      var last := args[|args| - 1];
      assert FileValues(args) == FileValues(prefix) + (if AwaitsFile(prefix) then [last] else []);
      assert Fold(args) == Step(Fold(prefix), last);
      if AwaitsFile(prefix) {
        assert Fold(prefix).files.GetOr([]) == FileValues(prefix);
        assert Fold(args).files == Some(FileValues(prefix) + [last]);
        assert |FileValues(args)| > 0;
      } else {
        assert FileValues(args) == FileValues(prefix);
      }
    }
  }

  /** The older `parseArgs`: no subcommand, no default file. */
  function ParseArgsLegacy(args: seq<string>): (ia: InvokeArgs)
    ensures ia.action == ""
    ensures ia.isDry <==> exists k :: 0 <= k < |args| && args[k] == "--dry" && !AwaitsFile(args[..k])
    ensures ia.files == if FileValues(args) == [] then None else Some(FileValues(args))
  {
    var st := Fold(args);
    FoldMeaning(args);
    InvokeArgs("", st.isDry, st.files)
  }

  predicate IsHelp(arg: string) {
    arg == "--help" || arg == "-h" || arg == "help"
  }

  /** `ParseArgs`. The first argument is indexed unconditionally, so it must exist. It selects
      "sync", "help" (which returns at once), or no action; the rest is parsed as `parseArgs`
      does, and an empty file list defaults to "secrets.yml". */
  function ParseArgs(args: seq<string>): (ia: InvokeArgs)
    requires |args| > 0
    ensures IsHelp(args[0]) ==> ia == InvokeArgs("help", false, None)
    ensures !IsHelp(args[0]) ==>
              && ia.action == (if args[0] == "sync" then "sync" else "")
              && ia.isDry == ParseArgsLegacy(args[1..]).isDry
              && ia.files == Some(if FileValues(args[1..]) == [] then [DefaultFile] else FileValues(args[1..]))
  {
    if args[0] == "sync" then Finish("sync", Fold(args[1..]))
    else if IsHelp(args[0]) then InvokeArgs("help", false, None)
    else Finish("", Fold(args[1..]))
  }

  function Finish(action: string, st: Scan): InvokeArgs {
    InvokeArgs(action, st.isDry, Some(st.files.GetOr([DefaultFile])))
  }

  /** The expected value of the test in parseargs/main_test.go. */
  lemma ParseJustSync()
    ensures ParseArgs(["sync"]) == InvokeArgs("sync", false, Some(["secrets.yml"]))
  {
    assert ["sync"][1..] == [];
  }

  /** The number of `--file` tokens that end `prefix`. */
  function TrailingFileFlags(prefix: seq<string>): nat
    decreases |prefix|
  {
    if |prefix| > 0 && prefix[|prefix| - 1] == "--file" then TrailingFileFlags(prefix[..|prefix| - 1]) + 1 else 0
  }

  /** A token is taken as a file exactly when an odd run of `--file` tokens precedes it. */
  lemma {:induction false} AwaitsFileParity(prefix: seq<string>)
    ensures AwaitsFile(prefix) <==> TrailingFileFlags(prefix) % 2 == 1
    decreases |prefix|
  {
    if |prefix| > 0 && prefix[|prefix| - 1] == "--file" {
      AwaitsFileParity(prefix[..|prefix| - 1]);
    }
  }

  /** The token after a `--file` flag is a file, even when it is "--dry" or "--file", and it
      goes after the files already collected. */
  lemma FileFlagTakesNextToken(before: seq<string>, x: string)
    requires !AwaitsFile(before)
    ensures ParseArgsLegacy(before + ["--file", x]).files == Some(FileValues(before) + [x])
    ensures ParseArgsLegacy(before + ["--file", x]).isDry == ParseArgsLegacy(before).isDry
  {
    var flagged := before + ["--file"];
    var args := flagged + [x];
    assert before + ["--file", x] == args;
    assert args[..|args| - 1] == flagged;
    assert flagged[..|before|] == before;
    FoldMeaning(before);
    var st := Fold(before);
    assert Fold(flagged) == st.(state := FileValue);
    assert Fold(args) == Scan(st.isDry, Some(st.files.GetOr([]) + [x]), Flag);
    assert st.files.GetOr([]) == FileValues(before);
  }

  /** A trailing `--file` with nothing after it adds nothing. */
  lemma TrailingFileFlagIgnored(before: seq<string>)
    requires !AwaitsFile(before)
    ensures ParseArgsLegacy(before + ["--file"]) == ParseArgsLegacy(before)
  {
    assert (before + ["--file"])[..|before|] == before;
    FoldMeaning(before);
  }
}
