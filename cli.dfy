/**
 * The command line (index.js:31-47) and the markdown filter (index.js:192-194).
 */
module Cli {
  import opened Wrappers
  import opened JsText

  /** What `parseArgs` leads to: the usage text, an output argument, or a thrown error. */
  datatype ArgsOutcome = Help | Output(outputArg: string) | UsageError(message: string)

  const TooManyArguments := "Too many arguments. Provide at most one output path."

  /** The message thrown for an argument that looks like an option but is not one. */
  function UnknownOption(arg: string): string {
    "Unknown option: " + arg
  }

  predicate IsHelpFlag(arg: string) {
    arg == "--help" || arg == "-h"
  }

  /** `arg.startsWith('-')`. */
  predicate IsOption(arg: string) {
    StartsWith(arg, "-")
  }

  /** The first argument that starts with `-`, if any. */
  function FirstOption(argv: seq<string>): (r: Option<nat>)
    ensures r.None? <==> forall i :: 0 <= i < |argv| ==> !IsOption(argv[i])
    ensures r.Some? ==>
      && r.value < |argv|
      && IsOption(argv[r.value])
      && (forall j :: 0 <= j < r.value ==> !IsOption(argv[j]))
  {
    if argv == [] then None
    else if IsOption(argv[0]) then Some(0)
    else match FirstOption(argv[1..])
      case None => None
      case Some(k) => Some(k + 1)
  }

  /**
   * The outcome of the arguments: the first option decides (help, or an
   * unknown option); without options, more than one argument is an error and
   * otherwise the only argument, or the empty string, is the output argument.
   */
  function Outcome(argv: seq<string>): ArgsOutcome {
    match FirstOption(argv)
    case Some(k) => if IsHelpFlag(argv[k]) then Help else UsageError(UnknownOption(argv[k]))
    case None =>
      if |argv| > 1 then UsageError(TooManyArguments)
      else Output(if argv == [] then "" else argv[0])
  }

  /** The first option is at `i` when `i` is an option and nothing before it is. */
  lemma FirstOptionAt(argv: seq<string>, i: nat)
    requires i < |argv| && IsOption(argv[i])
    requires forall j :: 0 <= j < i ==> !IsOption(argv[j])
    ensures FirstOption(argv) == Some(i)
  {
    var r := FirstOption(argv);
    assert r.Some?;
    if r.value < i {
    } else if r.value > i {
    }
  }

  /**
   * `parseArgs`: walks the arguments, stops at the first help flag or
   * unknown option, collects the rest, and refuses more than one.
   */
  method ParseArgs(argv: seq<string>) returns (r: ArgsOutcome)
    ensures r == Outcome(argv)
  {
    var outputArgs: seq<string> := [];
    var i := 0;
    while i < |argv|
      invariant 0 <= i <= |argv|
      invariant outputArgs == argv[..i]
      invariant forall j :: 0 <= j < i ==> !IsOption(argv[j])
    {
      var arg := argv[i];
      if arg == "--help" || arg == "-h" {
        FirstOptionAt(argv, i);
        return Help;
      }
      if IsOption(arg) {
        FirstOptionAt(argv, i);
        return UsageError(UnknownOption(arg));
      }
      outputArgs := outputArgs + [arg];
      i := i + 1;
    }
    assert outputArgs == argv;
    if |outputArgs| > 1 {
      return UsageError(TooManyArguments);
    }
    return Output(if |outputArgs| > 0 then outputArgs[0] else "");
  }

  /** An output path is accepted exactly when it is the one argument and not an option, or there is none. */
  lemma OutcomeOutput(argv: seq<string>, p: string)
    ensures Outcome(argv) == Output(p) <==>
      (argv == [] && p == "") || (argv == [p] && !IsOption(p))
  {
    if argv == [p] && !IsOption(p) {
      assert FirstOption(argv).None?;
    }
  }

  /** Help is shown exactly when a help flag comes before every other option. */
  lemma OutcomeHelp(argv: seq<string>)
    ensures Outcome(argv) == Help <==>
      exists k :: 0 <= k < |argv| && IsHelpFlag(argv[k]) && forall j :: 0 <= j < k ==> !IsOption(argv[j])
  {
    if k :| 0 <= k < |argv| && IsHelpFlag(argv[k]) && forall j :: 0 <= j < k ==> !IsOption(argv[j]) {
      assert argv[k][..1] == "-";
      FirstOptionAt(argv, k);
    }
  }

  /** `isMarkdown`: a `.md` or `.mdx` file. */
  predicate IsMarkdown(path: string) {
    EndsWith(path, ".md") || EndsWith(path, ".mdx")
  }

  /** A path is markdown exactly when it is some name followed by `.md` or `.mdx`. */
  lemma IsMarkdownMeans(path: string)
    ensures IsMarkdown(path) <==> exists stem :: path == stem + ".md" || path == stem + ".mdx"
  {
    if IsMarkdown(path) {
      if EndsWith(path, ".md") {
        assert path == path[..|path| - 3] + ".md";
      } else {
        assert path == path[..|path| - 4] + ".mdx";
      }
    }
    if stem :| path == stem + ".md" || path == stem + ".mdx" {
      if path == stem + ".md" {
        assert path[|path| - 3..] == ".md";
      } else {
        assert path[|path| - 4..] == ".mdx";
      }
    }
  }
}
