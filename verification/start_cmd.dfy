/**
  The argument vector of the activity manager's `am start` command. The fixed
  leading part (command, component, action, category, flags and anything the API
  level decides) is a parameter; this module adds the parsed intent arguments and
  the `-S` stop switch after it.
 */
module StartCmd {
  import opened Text
  import opened IntentArgs

  /**
    The launch options the command depends on. An absent `optionalIntentArguments`
    is the empty string; both add no tokens.
   */
  datatype StartOptions = StartOptions(
    pkg: string,
    activity: string,
    stopApp: bool,
    optionalIntentArguments: string)

  /**
    The tokens of the free-form intent-argument string. An empty string adds
    nothing; otherwise the tokens, joined with single spaces, are the string itself.
   */
  function IntentTokens(args: string): (ts: seq<string>)
    ensures Join(ts) == args
    ensures ts == [] <==> args == ""
  {
    if args == "" then []
    else
      SplitOnSpaceJoin(args);
      TokenizeJoin(SplitOnSpace(args));
      Tokenize(SplitOnSpace(args))
  }

  /**
    The start command: the fixed leading part that `amStart` computes from the
    options and the API level, then the intent-argument tokens, then `-S` when the
    application is to be stopped first.
   */
  function BuildStartCmd(amStart: (StartOptions, int) -> seq<string>, opts: StartOptions, apiLevel: int)
    : (cmd: seq<string>)
    ensures var fixed := amStart(opts, apiLevel);
      |fixed| <= |cmd| && cmd[..|fixed|] == fixed
    ensures var tail := cmd[|amStart(opts, apiLevel)|..];
      opts.stopApp ==>
        |tail| > 0 && tail[|tail| - 1] == "-S"
        && Join(tail[..|tail| - 1]) == opts.optionalIntentArguments
    ensures var tail := cmd[|amStart(opts, apiLevel)|..];
      !opts.stopApp ==> Join(tail) == opts.optionalIntentArguments
    ensures !opts.stopApp && opts.optionalIntentArguments == "" ==> cmd == amStart(opts, apiLevel)
  {
    var fixed := amStart(opts, apiLevel);
    var intent := IntentTokens(opts.optionalIntentArguments);
    var stop := if opts.stopApp then ["-S"] else [];
    var cmd := fixed + intent + stop;
    assert cmd[|fixed|..] == intent + stop;
    assert opts.stopApp ==> (intent + stop)[..|intent|] == intent;
    assert !opts.stopApp ==> intent + stop == intent;
    cmd
  }

  /** Unfolding of `BuildStartCmd` for proofs: its three parts, in order. It states no new property. */
  lemma StartCmdParts(amStart: (StartOptions, int) -> seq<string>, opts: StartOptions, apiLevel: int)
    ensures BuildStartCmd(amStart, opts, apiLevel)
         == amStart(opts, apiLevel) + IntentTokens(opts.optionalIntentArguments)
            + (if opts.stopApp then ["-S"] else [])
  {
  }

  /**
    Without `stopApp`, `-S` appears in the command only when the fixed part or one
    of the intent-argument words already holds it.
   */
  lemma StopSwitchOnlyWhenAsked(amStart: (StartOptions, int) -> seq<string>, opts: StartOptions, apiLevel: int)
    requires !opts.stopApp
    requires "-S" !in amStart(opts, apiLevel)
    requires "-S" !in SplitOnSpace(opts.optionalIntentArguments)
    ensures "-S" !in BuildStartCmd(amStart, opts, apiLevel)
  {
    var args := opts.optionalIntentArguments;
    StartCmdParts(amStart, opts, apiLevel);
    if args != "" {
      var ws := SplitOnSpace(args);
      assert IntentTokens(args) == Tokenize(ws);
      FlagsPreserved(ws);
      FlagsMember(Tokenize(ws), "-S");
      FlagsMember(ws, "-S");
      assert IsFlag("-S");
    }
  }
}
