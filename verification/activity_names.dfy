/**
  Candidate spellings of an activity name, tried one after another against the
  device when an activity is launched or waited for.
 */
module ActivityNames {
  import opened Text

  /**
    The candidates for `activity` in package `pkg`: the name exactly as given,
    then, when it starts with `pkg + "."`, the relative name left after removing
    `pkg`, then, when it does not start with a dot, the name with a dot put in front.
    Every candidate is the name as given, the dotted name, or a relative name that
    `pkg` expands back into the name as given; so a package that is only a
    character prefix of the name (`com.a` for `com.ab.Foo`) is never removed.
   */
  function Candidates(pkg: string, activity: string): (names: seq<string>)
    ensures |names| > 0 && names[0] == activity
    ensures forall i :: 0 <= i < |names| ==>
              || names[i] == activity
              || names[i] == "." + activity
              || (StartsWith(names[i], ".") && pkg + names[i] == activity)
  {
    var relative :=
      if StartsWith(activity, pkg + ".") then
        assert activity[..|pkg|] == (pkg + ".")[..|pkg|] == pkg;
        assert activity == activity[..|pkg|] + activity[|pkg|..];
        [activity[|pkg|..]]
      else [];
    var dotted := if StartsWith(activity, ".") then [] else ["." + activity];
    [activity] + relative + dotted
  }

  /** A name under the package yields its relative form: `pkg.x.Y` gives `.x.Y`. */
  lemma StripsPackage(pkg: string, rest: string)
    ensures "." + rest in Candidates(pkg, pkg + "." + rest)
  {
    var activity := pkg + "." + rest;
    assert activity[..|pkg| + 1] == pkg + ".";
    assert activity[|pkg|..] == "." + rest;
  }

  /** A name without a leading dot yields the same name with a dot in front. */
  lemma PrefixesDot(pkg: string, activity: string)
    requires !StartsWith(activity, ".")
    ensures "." + activity in Candidates(pkg, activity)
  {
    var names := Candidates(pkg, activity);
    assert names[|names| - 1] == "." + activity;
  }

  /**
    A name that already starts with a dot is kept as given and is never amended:
    no candidate puts a second dot in front of it.
   */
  lemma KeepsDottedName(pkg: string, activity: string)
    requires StartsWith(activity, ".")
    ensures activity in Candidates(pkg, activity)
    ensures "." + activity !in Candidates(pkg, activity)
  {
  }

  /**
    Only a prefix that ends exactly at a dot boundary is removed: when `activity`
    does not start with `pkg + "."`, the only candidates are the name as given and
    the name with a dot in front, so `com.a` is never stripped from `com.ab.Foo`.
   */
  lemma ExactPackageBoundary(pkg: string, activity: string)
    requires !StartsWith(activity, pkg + ".")
    ensures forall c :: c in Candidates(pkg, activity) ==> c == activity || c == "." + activity
  {
    var names := Candidates(pkg, activity);
    assert forall c :: c in names && StartsWith(c, ".") ==> pkg + c != activity by {
      forall c | c in names && StartsWith(c, ".")
        ensures pkg + c != activity
      {
        assert (pkg + c)[..|pkg| + 1] == pkg + ".";
      }
    }
  }
}
