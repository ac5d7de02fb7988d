/**
  Words separated by single spaces: the `split(" ")` / `join(" ")` pair that the
  intent-argument parser is built on, and the prefix test used on component names.
 */
module Text {

  /** True iff `prefix` is an initial segment of `s`. */
  predicate StartsWith(s: string, prefix: string)
  {
    |prefix| <= |s| && s[..|prefix|] == prefix
  }

  /** True iff `w` holds no space character. */
  predicate NoSpace(w: string)
  {
    forall i :: 0 <= i < |w| ==> w[i] != ' '
  }

  /** The words of `ws` separated by single spaces. */
  function Join(ws: seq<string>): string
  {
    if |ws| == 0 then ""
    else if |ws| == 1 then ws[0]
    else ws[0] + " " + Join(ws[1..])
  }

  /** Joining a word in front of a non-empty list puts one space between them. */
  lemma JoinCons(w: string, rest: seq<string>)
    requires |rest| > 0
    ensures Join([w] + rest) == w + " " + Join(rest)
  {
    assert ([w] + rest)[1..] == rest;
  }

  /** Joining is compatible with concatenation of non-empty word lists. */
  lemma {:induction false} JoinAppend(a: seq<string>, b: seq<string>)
    requires |a| > 0 && |b| > 0
    ensures Join(a + b) == Join(a) + " " + Join(b)
  {
    if |a| == 1 {
      assert a + b == [a[0]] + b;
      JoinCons(a[0], b);
    } else {
      assert a + b == [a[0]] + (a[1..] + b);
      JoinCons(a[0], a[1..] + b);
      JoinAppend(a[1..], b);
      assert a == [a[0]] + a[1..];
      JoinCons(a[0], a[1..]);
    }
  }

  /**
    Splits `s` at every single space, keeping the empty words that two adjacent
    spaces (or a leading or trailing space) produce, as JavaScript's `split(" ")` does.
   */
  function SplitOnSpace(s: string): (ws: seq<string>)
    ensures |ws| > 0
    decreases |s|
  {
    if |s| == 0 then [""]
    else
      var rest := SplitOnSpace(s[1..]);
      if s[0] == ' ' then [""] + rest
      else [[s[0]] + rest[0]] + rest[1..]
  }

  /** The words of a split hold no space and, joined again, give back the string. */
  lemma {:induction false} SplitOnSpaceJoin(s: string)
    ensures forall i :: 0 <= i < |SplitOnSpace(s)| ==> NoSpace(SplitOnSpace(s)[i])
    ensures Join(SplitOnSpace(s)) == s
    decreases |s|
  {
    if |s| > 0 {
      var rest := SplitOnSpace(s[1..]);
      SplitOnSpaceJoin(s[1..]);
      if s[0] == ' ' {
        JoinCons("", rest);
        assert s == " " + s[1..];
        assert SplitOnSpace(s)[1..] == rest;
      } else {
        var first := [s[0]] + rest[0];
        var ws := [first] + rest[1..];
        assert SplitOnSpace(s) == ws;
        assert NoSpace(first) by {
          forall i | 0 <= i < |first| ensures first[i] != ' ' {
            if i > 0 { assert first[i] == rest[0][i - 1]; }
          }
        }
        assert forall i :: 1 <= i < |ws| ==> ws[i] == rest[i];
        if |rest| == 1 {
          assert ws == [first];
        } else {
          JoinCons(first, rest[1..]);
          assert rest == [rest[0]] + rest[1..];
          JoinCons(rest[0], rest[1..]);
          assert s == [s[0]] + s[1..];
        }
      }
    }
  }

  /**
    The converse round trip: a non-empty list of space-free words, joined and
    split again, comes back unchanged.
   */
  lemma {:induction false} SplitJoin(ws: seq<string>)
    requires |ws| > 0
    requires forall i :: 0 <= i < |ws| ==> NoSpace(ws[i])
    ensures SplitOnSpace(Join(ws)) == ws
    decreases |Join(ws)|
  {
    var s := Join(ws);
    var tail := if |ws| == 1 then "" else " " + Join(ws[1..]);
    assert s == ws[0] + tail;
    if |s| == 0 {
      assert |ws| == 1;
    } else if |ws[0]| == 0 {
      assert |ws| > 1;
      assert s[0] == ' ';
      assert s[1..] == Join(ws[1..]);
      SplitJoin(ws[1..]);
      assert ws == [""] + ws[1..];
    } else {
      assert s[0] == ws[0][0] && s[0] != ' ';
      var ws' := [ws[0][1..]] + ws[1..];
      assert ws'[1..] == ws[1..];
      assert Join(ws') == ws[0][1..] + tail;
      assert s[1..] == Join(ws');
      assert forall i :: 0 <= i < |ws'| ==> NoSpace(ws'[i]) by {
        forall i | 0 <= i < |ws'| ensures NoSpace(ws'[i]) {
          if i == 0 {
            assert forall k :: 0 <= k < |ws'[0]| ==> ws'[0][k] == ws[0][k + 1];
          } else {
            assert ws'[i] == ws[i];
          }
        }
      }
      SplitJoin(ws');
      assert ws[0] == [ws[0][0]] + ws[0][1..];
    }
  }
}
