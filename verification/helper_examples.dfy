/**
  The concrete cases the helpers are specified by: activity-name candidates for
  the four unit-test package/activity pairs and the dot-boundary case, and the
  start command for seven intent-argument strings and both settings of the stop
  switch (API level 20, component `com.something/.SomeActivity`).

  Each case takes its literal input as a parameter fixed by a `requires`, rather
  than writing the literal in the `ensures`, so that the verifier does not unfold
  `SplitOnSpace`, `Tokenize`, `Join` and `Candidates` on the literal itself.
 */
module HelperExamples {
  import opened Text
  import opened IntentArgs
  import opened ActivityNames
  import opened StartCmd

  // Activity-name candidates.

  lemma RemovesPackageExample(pkg: string, activity: string)
    requires pkg == "pkg" && activity == "pkg.activity.name"
    ensures ".activity.name" in Candidates(pkg, activity)
  {
    assert StartsWith(activity, pkg + ".");
    assert activity[|pkg|..] == ".activity.name";
  }

  lemma PrefixesDotExample(pkg: string, activity: string)
    requires pkg == "pkg" && activity == "act.name"
    ensures ".act.name" in Candidates(pkg, activity)
  {
    assert activity[0] == 'a';
    PrefixesDot(pkg, activity);
    assert "." + activity == ".act.name";
  }

  lemma KeepsDottedNameExample(pkg: string, activity: string)
    requires pkg == "pkg" && activity == ".activity.name"
    ensures ".activity.name" in Candidates(pkg, activity)
    ensures "..activity.name" !in Candidates(pkg, activity)
  {
    assert activity[..1] == ".";
    KeepsDottedName(pkg, activity);
    assert "." + activity == "..activity.name";
  }

  lemma OtherPackageExample(pkg: string, activity: string)
    requires pkg == "com.ga.aaa.android.bbb.activities.local"
    requires activity == "com.ga.aaa.android.bbb.activity.FirstLaunchActivity"
    ensures "com.ga.aaa.android.bbb.activity.FirstLaunchActivity" in Candidates(pkg, activity)
  {
    assert Candidates(pkg, activity)[0] == activity;
  }

  /** A package that is only a character prefix of the name is not removed. */
  lemma CharacterPrefixExample(pkg: string, activity: string)
    requires pkg == "com.a" && activity == "com.ab.Foo"
    ensures Candidates(pkg, activity) == [activity, "." + activity]
  {
    assert activity[5] == 'b';
    assert activity[0] == 'c';
  }

  // Start commands.

  const ExampleOptions := StartOptions("com.something", ".SomeActivity", false, "")

  function WithArgs(args: string): StartOptions
  {
    ExampleOptions.(optionalIntentArguments := args)
  }

  const Url1 := "http://some-url-with-hyphens.com/"
  const Url2 := "http://some-other-url-with-hyphens.com/"

  /** A string made of the space-free words `ws` splits back into them. */
  lemma SplitsInto(args: string, ws: seq<string>)
    requires |ws| > 0 && forall i :: 0 <= i < |ws| ==> NoSpace(ws[i])
    requires Join(ws) == args
    ensures SplitOnSpace(args) == ws
  {
    SplitJoin(ws);
  }

  /**
    Without the stop switch, the command for a non-empty argument string that
    splits into `ws` ends in exactly the tokens of `ws`.
   */
  lemma CommandEndsIn(amStart: (StartOptions, int) -> seq<string>, opts: StartOptions,
                      ws: seq<string>, ts: seq<string>)
    requires !opts.stopApp && opts.optionalIntentArguments != ""
    requires SplitOnSpace(opts.optionalIntentArguments) == ws && Tokenize(ws) == ts
    ensures BuildStartCmd(amStart, opts, 20) == amStart(opts, 20) + ts
  {
    StartCmdParts(amStart, opts, 20);
  }

  /** Two words joined: one space between them. */
  lemma JoinTwo(a: string, b: string)
    ensures Join([a, b]) == a + " " + b
  {
    JoinCons(a, [b]);
    assert [a] + [b] == [a, b];
  }

  /** Three words joined: one space between each neighbouring pair. */
  lemma JoinThree(a: string, b: string, c: string)
    ensures Join([a, b, c]) == a + " " + b + " " + c
  {
    JoinTwo(b, c);
    JoinCons(a, [b, c]);
    assert [a] + [b, c] == [a, b, c];
  }

  lemma SingleKeyJoin()
    ensures Join(["-d", "key"]) == "-d key"
  {
    JoinTwo("-d", "key");
  }

  lemma SingleKeyWords(args: string)
    requires args == "-d key"
    ensures SplitOnSpace(args) == ["-d", "key"]
  {
    SingleKeyJoin();
    SplitsInto(args, ["-d", "key"]);
  }

  lemma SingleKeyTokens(ws: seq<string>)
    requires ws == ["-d", "key"]
    ensures Tokenize(ws) == ["-d", "key"]
  {
    FlagKeyValues("-d", "key", []);
    assert ["-d", "key"] + [] == ws;
  }

  lemma SingleKeyExample(amStart: (StartOptions, int) -> seq<string>, opts: StartOptions)
    requires opts == WithArgs("-d key")
    ensures BuildStartCmd(amStart, opts, 20) == amStart(opts, 20) + ["-d", "key"]
  {
    SingleKeyWords(opts.optionalIntentArguments);
    SingleKeyTokens(SplitOnSpace(opts.optionalIntentArguments));
    CommandEndsIn(amStart, opts, ["-d", "key"], ["-d", "key"]);
  }

  lemma KeyValueJoin()
    ensures Join(["-d", "key", "value"]) == "-d key value"
  {
    JoinThree("-d", "key", "value");
  }

  lemma KeyValueWords(args: string)
    requires args == "-d key value"
    ensures SplitOnSpace(args) == ["-d", "key", "value"]
  {
    KeyValueJoin();
    SplitsInto(args, ["-d", "key", "value"]);
  }

  lemma KeyValueTokens(ws: seq<string>)
    requires ws == ["-d", "key", "value"]
    ensures Tokenize(ws) == ["-d", "key", "value"]
  {
    FlagKeyValues("-d", "key", ["value"]);
    assert ["-d", "key"] + ["value"] == ws;
  }

  lemma KeyValueExample(amStart: (StartOptions, int) -> seq<string>, opts: StartOptions)
    requires opts == WithArgs("-d key value")
    ensures BuildStartCmd(amStart, opts, 20) == amStart(opts, 20) + ["-d", "key", "value"]
  {
    KeyValueWords(opts.optionalIntentArguments);
    KeyValueTokens(SplitOnSpace(opts.optionalIntentArguments));
    CommandEndsIn(amStart, opts, ["-d", "key", "value"], ["-d", "key", "value"]);
  }

  lemma KeyValueWithSpacesJoin()
    ensures Join(["-d", "key", "value", "value2"]) == "-d key value value2"
  {
    JoinTwo("-d", "key");
    JoinTwo("value", "value2");
    JoinAppend(["-d", "key"], ["value", "value2"]);
    assert ["-d", "key"] + ["value", "value2"] == ["-d", "key", "value", "value2"];
  }

  lemma KeyValueWithSpacesWords(args: string)
    requires args == "-d key value value2"
    ensures SplitOnSpace(args) == ["-d", "key", "value", "value2"]
  {
    KeyValueWithSpacesJoin();
    SplitsInto(args, ["-d", "key", "value", "value2"]);
  }

  lemma KeyValueWithSpacesTokens(ws: seq<string>)
    requires ws == ["-d", "key", "value", "value2"]
    ensures Tokenize(ws) == ["-d", "key", "value value2"]
  {
    assert Join(["value", "value2"]) == "value value2";
    FlagKeyValues("-d", "key", ["value", "value2"]);
    assert ["-d", "key"] + ["value", "value2"] == ws;
  }

  lemma KeyValueWithSpacesExample(amStart: (StartOptions, int) -> seq<string>, opts: StartOptions)
    requires opts == WithArgs("-d key value value2")
    ensures BuildStartCmd(amStart, opts, 20) == amStart(opts, 20) + ["-d", "key", "value value2"]
  {
    KeyValueWithSpacesWords(opts.optionalIntentArguments);
    KeyValueWithSpacesTokens(SplitOnSpace(opts.optionalIntentArguments));
    CommandEndsIn(amStart, opts, ["-d", "key", "value", "value2"], ["-d", "key", "value value2"]);
  }

  lemma MultipleKeysJoin()
    ensures Join(["-d", "key1", "-e", "key2"]) == "-d key1 -e key2"
  {
    JoinTwo("-d", "key1");
    JoinTwo("-e", "key2");
    JoinAppend(["-d", "key1"], ["-e", "key2"]);
    assert ["-d", "key1"] + ["-e", "key2"] == ["-d", "key1", "-e", "key2"];
  }

  lemma MultipleKeysWords(args: string)
    requires args == "-d key1 -e key2"
    ensures SplitOnSpace(args) == ["-d", "key1", "-e", "key2"]
  {
    MultipleKeysJoin();
    SplitsInto(args, ["-d", "key1", "-e", "key2"]);
  }

  lemma MultipleKeysTokens(ws: seq<string>)
    requires ws == ["-d", "key1", "-e", "key2"]
    ensures Tokenize(ws) == ["-d", "key1", "-e", "key2"]
  {
    var a, b := ["-d", "key1"], ["-e", "key2"];
    assert a + b == ws;
    FlagKeyValues("-d", "key1", []);
    assert ["-d", "key1"] + [] == a;
    FlagKeyValues("-e", "key2", []);
    assert ["-e", "key2"] + [] == b;
    TokenizeAppend(a, b);
  }

  lemma MultipleKeysExample(amStart: (StartOptions, int) -> seq<string>, opts: StartOptions)
    requires opts == WithArgs("-d key1 -e key2")
    ensures BuildStartCmd(amStart, opts, 20) == amStart(opts, 20) + ["-d", "key1", "-e", "key2"]
  {
    MultipleKeysWords(opts.optionalIntentArguments);
    MultipleKeysTokens(SplitOnSpace(opts.optionalIntentArguments));
    CommandEndsIn(amStart, opts, ["-d", "key1", "-e", "key2"], ["-d", "key1", "-e", "key2"]);
  }

  /** Two groups of three words joined: one space between each neighbouring pair. */
  lemma JoinSix(a: string, b: string, c: string, d: string, e: string, f: string)
    ensures Join([a, b, c, d, e, f]) == a + " " + b + " " + c + " " + d + " " + e + " " + f
  {
    JoinThree(a, b, c);
    JoinThree(d, e, f);
    JoinAppend([a, b, c], [d, e, f]);
    assert [a, b, c] + [d, e, f] == [a, b, c, d, e, f];
  }

  lemma MultipleKeyValuesJoin()
    ensures Join(["-d", "key1", "value1", "-e", "key2", "value2"]) == "-d key1 value1 -e key2 value2"
  {
    JoinSix("-d", "key1", "value1", "-e", "key2", "value2");
  }

  lemma MultipleKeyValuesWords(args: string)
    requires args == "-d key1 value1 -e key2 value2"
    ensures SplitOnSpace(args) == ["-d", "key1", "value1", "-e", "key2", "value2"]
  {
    MultipleKeyValuesJoin();
    SplitsInto(args, ["-d", "key1", "value1", "-e", "key2", "value2"]);
  }

  lemma MultipleKeyValuesTokens(ws: seq<string>)
    requires ws == ["-d", "key1", "value1", "-e", "key2", "value2"]
    ensures Tokenize(ws) == ["-d", "key1", "value1", "-e", "key2", "value2"]
  {
    var a, b := ["-d", "key1", "value1"], ["-e", "key2", "value2"];
    assert a + b == ws;
    FlagKeyValues("-d", "key1", ["value1"]);
    assert ["-d", "key1"] + ["value1"] == a;
    FlagKeyValues("-e", "key2", ["value2"]);
    assert ["-e", "key2"] + ["value2"] == b;
    TokenizeAppend(a, b);
  }

  lemma MultipleKeyValuesExample(amStart: (StartOptions, int) -> seq<string>, opts: StartOptions)
    requires opts == WithArgs("-d key1 value1 -e key2 value2")
    ensures BuildStartCmd(amStart, opts, 20) == amStart(opts, 20) + ["-d", "key1", "value1", "-e", "key2", "value2"]
  {
    MultipleKeyValuesWords(opts.optionalIntentArguments);
    MultipleKeyValuesTokens(SplitOnSpace(opts.optionalIntentArguments));
    CommandEndsIn(amStart, opts, ["-d", "key1", "value1", "-e", "key2", "value2"], ["-d", "key1", "value1", "-e", "key2", "value2"]);
  }

  lemma HyphenatedValueJoin()
    ensures Join(["-d", Url1]) == "-d " + Url1
  {
    JoinTwo("-d", Url1);
  }

  lemma HyphenatedValueWords(args: string)
    requires args == "-d " + Url1
    ensures SplitOnSpace(args) == ["-d", Url1]
  {
    HyphenatedValueJoin();
    SplitsInto(args, ["-d", Url1]);
  }

  lemma HyphenatedValueTokens(ws: seq<string>)
    requires ws == ["-d", Url1]
    ensures Tokenize(ws) == ["-d", Url1]
  {
    FlagKeyValues("-d", Url1, []);
    assert ["-d", Url1] + [] == ws;
  }

  lemma HyphenatedValueExample(amStart: (StartOptions, int) -> seq<string>, opts: StartOptions)
    requires opts == WithArgs("-d " + Url1)
    ensures BuildStartCmd(amStart, opts, 20) == amStart(opts, 20) + ["-d", Url1]
  {
    HyphenatedValueWords(opts.optionalIntentArguments);
    HyphenatedValueTokens(SplitOnSpace(opts.optionalIntentArguments));
    CommandEndsIn(amStart, opts, ["-d", Url1], ["-d", Url1]);
  }

  lemma HyphenatedArgumentsJoin()
    ensures Join(["-d", Url1, "-e", "key", Url2]) == "-d " + Url1 + " -e key " + Url2
  {
    JoinTwo("-d", Url1);
    JoinThree("-e", "key", Url2);
    JoinAppend(["-d", Url1], ["-e", "key", Url2]);
    assert ["-d", Url1] + ["-e", "key", Url2] == ["-d", Url1, "-e", "key", Url2];
  }

  lemma HyphenatedArgumentsWords(args: string)
    requires args == "-d " + Url1 + " -e key " + Url2
    ensures SplitOnSpace(args) == ["-d", Url1, "-e", "key", Url2]
  {
    HyphenatedArgumentsJoin();
    SplitsInto(args, ["-d", Url1, "-e", "key", Url2]);
  }

  lemma HyphenatedArgumentsTokens(ws: seq<string>)
    requires ws == ["-d", Url1, "-e", "key", Url2]
    ensures Tokenize(ws) == ["-d", Url1, "-e", "key", Url2]
  {
    var a, b := ["-d", Url1], ["-e", "key", Url2];
    assert a + b == ws;
    FlagKeyValues("-d", Url1, []);
    assert ["-d", Url1] + [] == a;
    FlagKeyValues("-e", "key", [Url2]);
    assert ["-e", "key"] + [Url2] == b;
    TokenizeAppend(a, b);
  }

  lemma HyphenatedArgumentsExample(amStart: (StartOptions, int) -> seq<string>, opts: StartOptions)
    requires opts == WithArgs("-d " + Url1 + " -e key " + Url2)
    ensures BuildStartCmd(amStart, opts, 20) == amStart(opts, 20) + ["-d", Url1, "-e", "key", Url2]
  {
    HyphenatedArgumentsWords(opts.optionalIntentArguments);
    HyphenatedArgumentsTokens(SplitOnSpace(opts.optionalIntentArguments));
    CommandEndsIn(amStart, opts, ["-d", Url1, "-e", "key", Url2], ["-d", Url1, "-e", "key", Url2]);
  }

  lemma StopAppExample(amStart: (StartOptions, int) -> seq<string>)
    ensures var cmd := BuildStartCmd(amStart, ExampleOptions.(stopApp := true), 20);
      |cmd| > 0 && cmd[|cmd| - 1] == "-S"
  {
  }

  lemma NoStopAppExample(amStart: (StartOptions, int) -> seq<string>)
    requires var fixed := amStart(ExampleOptions, 20); |fixed| > 0 && fixed[|fixed| - 1] != "-S"
    ensures var cmd := BuildStartCmd(amStart, ExampleOptions, 20);
      |cmd| > 0 && cmd[|cmd| - 1] != "-S"
  {
  }
}
