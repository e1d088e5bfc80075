// Splitting and joining of strings (src/Util.cc).
module Text {

  // \s in a regular expression.
  predicate IsSpace(c: char)
  {
    c in " \t\n\r" || c as int == 11 || c as int == 12
  }

  // The position of the first c in s, or |s|.
  function Find(c: char, s: string): (p: nat)
    ensures p <= |s|
    ensures c !in s[..p]
    ensures p < |s| ==> s[p] == c
  {
    if s == "" then 0 else if s[0] == c then 0
    else
      var p := Find(c, s[1..]);
      assert s[..p + 1] == [s[0]] + s[1..][..p];
      p + 1
  }

  function Split(sep: char, s: string): (r: seq<string>)
    ensures r != []
    decreases |s|
  {
    var p := Find(sep, s);
    if p == |s| then [s] else [s[..p]] + Split(sep, s[p + 1..])
  }

  function Join(sep: char, parts: seq<string>): string
  {
    if parts == [] then ""
    else if |parts| == 1 then parts[0]
    else parts[0] + [sep] + Join(sep, parts[1..])
  }

  ghost predicate Free(sep: char, parts: seq<string>)
  {
    forall i :: 0 <= i < |parts| ==> sep !in parts[i]
  }

  lemma {:induction false} FindFirst(c: char, s: string, p: nat)
    requires p <= |s| && c !in s[..p] && (p < |s| ==> s[p] == c)
    ensures Find(c, s) == p
  {
    if p > 0 {
      assert s[0] in s[..p];
      assert s[..p][1..] == s[1..][..p - 1];
      FindFirst(c, s[1..], p - 1);
    }
  }

  lemma {:induction false} SplitParts(sep: char, s: string)
    ensures Free(sep, Split(sep, s))
    ensures Join(sep, Split(sep, s)) == s
    decreases |s|
  {
    var p := Find(sep, s);
    if p < |s| {
      SplitParts(sep, s[p + 1..]);
      assert s == s[..p] + [sep] + s[p + 1..];
      assert Split(sep, s)[1..] == Split(sep, s[p + 1..]);
    } else {
      assert s[..p] == s;
    }
  }

  lemma SplitOnce(sep: char, a: string, b: string)
    requires sep !in a
    ensures Split(sep, a) == [a]
    ensures Split(sep, a + [sep] + b) == [a] + Split(sep, b)
  {
    var s := a + [sep] + b;
    assert a[..|a|] == a;
    FindFirst(sep, a, |a|);
    assert s[..|a|] == a;
    FindFirst(sep, s, |a|);
    assert s[|a| + 1..] == b;
  }

  lemma {:induction false} SplitSplits(sep: char, a: string, b: string)
    ensures Split(sep, a + [sep] + b) == Split(sep, a) + Split(sep, b)
    decreases |a|
  {
    hide Split, Find;
    var p := Find(sep, a);
    if p == |a| {
      assert a[..p] == a;
      SplitOnce(sep, a, b);
    } else {
      var rest := a[p + 1..];
      assert a == a[..p] + [sep] + rest;
      assert a + [sep] + b == a[..p] + [sep] + (rest + [sep] + b);
      SplitOnce(sep, a[..p], rest);
      SplitOnce(sep, a[..p], rest + [sep] + b);
      SplitSplits(sep, rest, b);
    }
  }

  // Splitting undoes joining.
  lemma {:induction false} SplitJoined(sep: char, parts: seq<string>)
    requires parts != [] && Free(sep, parts)
    ensures Split(sep, Join(sep, parts)) == parts
  {
    if |parts| == 1 {
      SplitOnce(sep, parts[0], "");
    } else {
      SplitJoined(sep, parts[1..]);
      SplitOnce(sep, parts[0], Join(sep, parts[1..]));
    }
  }

  method SplitString(sep: char, input: string) returns (result: seq<string>)
    ensures result == Split(sep, input)
  {
    result := [];
    var rest := input;
    var p := Find(sep, rest);
    while p < |rest|
      invariant p == Find(sep, rest)
      invariant result + Split(sep, rest) == Split(sep, input)
      decreases |rest|
    {
      result := result + [rest[..p]];
      rest := rest[p + 1..];
      p := Find(sep, rest);
    }
    result := result + [rest];
  }
}
