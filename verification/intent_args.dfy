/**
  The free-form `optionalIntentArguments` string of a start command: split on single
  spaces into words, then grouped. A flag word opens a group; the word after it is
  the key, emitted as its own token; any further words up to the next flag are
  joined with single spaces into one value token, omitted when there are none.
 */
module IntentArgs {
  import opened Text

  predicate IsLetter(c: char)
  {
    'a' <= c <= 'z' || 'A' <= c <= 'Z'
  }

  /**
    A flag word is one hyphen followed by exactly one letter (`-d`, `-e`).
    A hyphen anywhere else, as inside a URL, never makes a word a flag.
   */
  predicate IsFlag(w: string)
  {
    |w| == 2 && w[0] == '-' && IsLetter(w[1])
  }

  predicate NoFlags(ws: seq<string>)
  {
    forall i :: 0 <= i < |ws| ==> !IsFlag(ws[i])
  }

  /** The length of the run of non-flag words that `ws` starts with. */
  function LeadingValues(ws: seq<string>): (n: nat)
    ensures n <= |ws|
    ensures NoFlags(ws[..n])
    ensures n < |ws| ==> IsFlag(ws[n])
  {
    if |ws| == 0 || IsFlag(ws[0]) then 0 else 1 + LeadingValues(ws[1..])
  }

  /**
    The tokens of one group `seg`, whose words after the first are not flags.
    Under a flag: the flag, its key, then the remaining words as one value token.
    A run of words before the first flag has no flag and stays one token.
   */
  function Group(seg: seq<string>): (ts: seq<string>)
    requires |seg| > 0
    ensures |ts| > 0
    ensures Join(ts) == Join(seg)
  {
    if !IsFlag(seg[0]) || |seg| <= 2 then
      if IsFlag(seg[0]) then seg else [Join(seg)]
    else
      JoinCons(seg[1], seg[2..]);
      assert seg[1..] == [seg[1]] + seg[2..];
      JoinCons(seg[0], seg[1..]);
      JoinCons(seg[0], [seg[1], Join(seg[2..])]);
      assert [seg[1], Join(seg[2..])] == [seg[1]] + [Join(seg[2..])];
      JoinCons(seg[1], [Join(seg[2..])]);
      assert [seg[0], seg[1], Join(seg[2..])] == [seg[0]] + [seg[1], Join(seg[2..])];
      [seg[0], seg[1], Join(seg[2..])]
  }

  /** The token list of a word list: its groups, left to right. */
  function Tokenize(ws: seq<string>): (ts: seq<string>)
    decreases |ws|
  {
    if |ws| == 0 then []
    else
      var n := 1 + LeadingValues(ws[1..]);
      Group(ws[..n]) + Tokenize(ws[n..])
  }

  /** The flag words of a list, in order. */
  function Flags(ws: seq<string>): seq<string>
  {
    if |ws| == 0 then []
    else (if IsFlag(ws[0]) then [ws[0]] else []) + Flags(ws[1..])
  }

  lemma {:induction false} FlagsMember(ws: seq<string>, x: string)
    ensures x in Flags(ws) <==> x in ws && IsFlag(x)
    decreases |ws|
  {
    if |ws| > 0 {
      FlagsMember(ws[1..], x);
      assert ws == [ws[0]] + ws[1..];
    }
  }

  lemma {:induction false} FlagsAppend(a: seq<string>, b: seq<string>)
    ensures Flags(a + b) == Flags(a) + Flags(b)
    decreases |a|
  {
    if |a| > 0 {
      assert (a + b)[1..] == a[1..] + b;
      FlagsAppend(a[1..], b);
    } else {
      assert a + b == b;
    }
  }

  lemma {:induction false} FlagsNone(ws: seq<string>)
    requires NoFlags(ws)
    ensures Flags(ws) == []
    decreases |ws|
  {
    if |ws| > 0 {
      FlagsNone(ws[1..]);
    }
  }

  /** Joining two or more words puts a space into the result, so it is not a flag. */
  lemma JoinNotFlag(ws: seq<string>)
    requires |ws| > 0 && NoFlags(ws)
    ensures !IsFlag(Join(ws))
  {
    if |ws| > 1 {
      var s := Join(ws);
      assert s == ws[0] + " " + Join(ws[1..]);
      assert s[|ws[0]|] == ' ';
    }
  }

  /** A group keeps exactly the flag word it was opened by. */
  lemma GroupFlags(seg: seq<string>)
    requires |seg| > 0 && NoFlags(seg[1..])
    ensures Flags(Group(seg)) == Flags(seg)
  {
    assert seg == [seg[0]] + seg[1..];
    FlagsAppend([seg[0]], seg[1..]);
    FlagsNone(seg[1..]);
    if !IsFlag(seg[0]) {
      assert NoFlags(seg);
      JoinNotFlag(seg);
      assert Group(seg) == [Join(seg)];
    } else if |seg| > 2 {
      KeyValueFlags(seg);
    }
  }

  /** Under a flag, neither the key nor the joined value is a flag. */
  lemma KeyValueFlags(seg: seq<string>)
    requires |seg| > 2 && IsFlag(seg[0]) && NoFlags(seg[1..])
    ensures Flags(Group(seg)) == [seg[0]]
  {
    var kv := [seg[1], Join(seg[2..])];
    assert seg[2..] == seg[1..][1..];
    JoinNotFlag(seg[2..]);
    assert Group(seg) == [seg[0]] + kv;
    FlagsAppend([seg[0]], kv);
    assert NoFlags(kv);
    FlagsNone(kv);
  }

  /**
    Joining the emitted tokens with single spaces gives back the joined words:
    no word is lost, invented or moved.
   */
  lemma {:induction false} TokenizeJoin(ws: seq<string>)
    ensures Join(Tokenize(ws)) == Join(ws)
    decreases |ws|
  {
    if |ws| > 0 {
      var n := 1 + LeadingValues(ws[1..]);
      assert ws == ws[..n] + ws[n..];
      if n < |ws| {
        TokenizeJoin(ws[n..]);
        TokenizeNonEmpty(ws[n..]);
        JoinAppend(Group(ws[..n]), Tokenize(ws[n..]));
        JoinAppend(ws[..n], ws[n..]);
      } else {
        assert ws[n..] == [] && ws[..n] == ws;
        assert Tokenize(ws[n..]) == [];
        assert Tokenize(ws) == Group(ws[..n]) + Tokenize(ws[n..]);
        assert Tokenize(ws) == Group(ws);
        assert Join(Group(ws)) == Join(ws);
      }
    }
  }

  lemma TokenizeNonEmpty(ws: seq<string>)
    requires |ws| > 0
    ensures |Tokenize(ws)| > 0
  {
  }

  /** The flags of the output are the flags of the input, in the same order. */
  lemma {:induction false} FlagsPreserved(ws: seq<string>)
    ensures Flags(Tokenize(ws)) == Flags(ws)
    decreases |ws|
  {
    if |ws| > 0 {
      var seg, rest := FirstGroup(ws);
      GroupFlags(seg);
      FlagsPreserved(rest);
      FlagsAppend(Group(seg), Tokenize(rest));
      FlagsAppend(seg, rest);
    }
  }

  /** The first group of a non-empty word list and the words after it. */
  lemma FirstGroup(ws: seq<string>) returns (seg: seq<string>, rest: seq<string>)
    requires |ws| > 0
    ensures |seg| > 0 && NoFlags(seg[1..])
    ensures ws == seg + rest && |rest| < |ws|
    ensures Tokenize(ws) == Group(seg) + Tokenize(rest)
  {
    var n := 1 + LeadingValues(ws[1..]);
    TokenizeStep(ws, n);
    seg, rest := ws[..n], ws[n..];
    assert NoFlags(seg[1..]) by {
      assert seg[1..] == ws[1..][..n - 1];
    }
    assert ws == seg + rest;
  }

  lemma {:induction false} LeadingValuesAppend(x: seq<string>, b: seq<string>)
    requires |b| == 0 || IsFlag(b[0])
    ensures LeadingValues(x + b) == LeadingValues(x)
    decreases |x|
  {
    if |x| == 0 {
      assert x + b == b;
    } else {
      assert (x + b)[0] == x[0];
      assert (x + b)[1..] == x[1..] + b;
      LeadingValuesAppend(x[1..], b);
    }
  }

  /**
    A word list cut just before a flag tokenizes as its two halves: groups are
    emitted in source order and do not influence each other.
   */
  lemma {:induction false} TokenizeAppend(a: seq<string>, b: seq<string>)
    requires |a| == 0 || |b| == 0 || IsFlag(b[0])
    ensures Tokenize(a + b) == Tokenize(a) + Tokenize(b)
    decreases |a|
  {
    if |a| == 0 {
      assert a + b == b;
    } else if |b| == 0 {
      assert a + b == a;
    } else {
      var ab := a + b;
      var n := 1 + LeadingValues(a[1..]);
      assert ab[1..] == a[1..] + b;
      LeadingValuesAppend(a[1..], b);
      assert ab[..n] == a[..n];
      assert ab[n..] == a[n..] + b;
      TokenizeAppend(a[n..], b);
      TokenizeStep(ab, n);
      TokenizeStep(a, n);
    }
  }

  /** Unfolding of `Tokenize` for proofs: its first group, then the rest. It states no new property. */
  lemma TokenizeStep(ws: seq<string>, n: nat)
    requires |ws| > 0 && n == 1 + LeadingValues(ws[1..])
    ensures n <= |ws|
    ensures Tokenize(ws) == Group(ws[..n]) + Tokenize(ws[n..])
  {
  }

  /** A word list with no flag after its first word is a single group. */
  lemma SingleGroup(seg: seq<string>)
    requires |seg| > 0 && NoFlags(seg[1..])
    ensures Tokenize(seg) == Group(seg)
  {
    var n := 1 + LeadingValues(seg[1..]);
    assert n == |seg|;
    TokenizeStep(seg, n);
    assert seg[..n] == seg;
    assert seg[n..] == [];
  }

  /**
    One flag group: the flag, then the key as its own token, then every further
    word joined into one value token, with no value token when there is none.
   */
  lemma FlagKeyValues(flag: string, key: string, values: seq<string>)
    requires IsFlag(flag) && !IsFlag(key) && NoFlags(values)
    ensures Tokenize([flag, key] + values)
         == [flag, key] + (if |values| == 0 then [] else [Join(values)])
  {
    var seg := [flag, key] + values;
    assert seg[1..] == [key] + values;
    assert seg[2..] == values;
    SingleGroup(seg);
  }

  /** A flag with no word before the next flag is emitted alone, with no empty value. */
  lemma DanglingFlag(flag: string, rest: seq<string>)
    requires IsFlag(flag) && (|rest| == 0 || IsFlag(rest[0]))
    ensures Tokenize([flag] + rest) == [flag] + Tokenize(rest)
  {
    TokenizeAppend([flag], rest);
    SingleGroup([flag]);
  }

  /**
    The parser as a single left-to-right pass: it keeps the start of the group it
    is reading and closes that group when the next flag word arrives.
   */
  method Scan(ws: seq<string>) returns (ts: seq<string>)
    ensures ts == Tokenize(ws)
  {
    ts := [];
    var start := 0;
    var i := 0;
    while i < |ws|
      invariant 0 <= start <= i <= |ws|
      invariant start < i || i == 0
      invariant start == 0 || IsFlag(ws[start])
      invariant forall k :: start < k < i ==> !IsFlag(ws[k])
      invariant ts == Tokenize(ws[..start])
    {
      if IsFlag(ws[i]) && start < i {
        CloseGroup(ws, start, i);
        ts := ts + Group(ws[start..i]);
        start := i;
      }
      i := i + 1;
    }
    if start < |ws| {
      CloseGroup(ws, start, |ws|);
      ts := ts + Group(ws[start..]);
    }
    assert ws[..|ws|] == ws;
  }

  /** The step the scanner relies on when it closes the group `ws[start..end]`. */
  lemma CloseGroup(ws: seq<string>, start: nat, end: nat)
    requires start < end <= |ws|
    requires start == 0 || IsFlag(ws[start])
    requires forall k :: start < k < end ==> !IsFlag(ws[k])
    ensures Tokenize(ws[..end]) == Tokenize(ws[..start]) + Group(ws[start..end])
  {
    var seg := ws[start..end];
    assert NoFlags(seg[1..]) by {
      forall j | 0 <= j < |seg[1..]| ensures !IsFlag(seg[1..][j]) {
        assert seg[1..][j] == ws[start + 1 + j];
      }
    }
    SingleGroup(seg);
    assert ws[..end] == ws[..start] + seg;
    TokenizeAppend(ws[..start], seg);
  }
}
