/** StringTokenizeT of base/util/string_util.cpp: the maximal runs without delimiters. */
module StringTokenize {
  import opened Slices

  // ---- specification -------------------------------------------------------------------------

  /** Length of the leading run without delimiters. */
  function Run(s: string, delims: string): (n: nat)
    ensures n <= |s|
    ensures forall i :: 0 <= i < n ==> s[i] !in delims
    ensures n < |s| ==> s[n] in delims
  {
    if s == [] || s[0] in delims then 0 else 1 + Run(s[1..], delims)
  }

  function Tokens(s: string, delims: string): seq<string> {
    if s == [] then []
    else if s[0] in delims then Tokens(s[1..], delims)
    else
      var n := Run(s, delims);
      [s[..n]] + Tokens(s[n..], delims)
  }

  function Concat(ts: seq<string>): string {
    if ts == [] then [] else ts[0] + Concat(ts[1..])
  }

  function Join(ts: seq<string>, d: char): string {
    if ts == [] then [] else if |ts| == 1 then ts[0] else ts[0] + [d] + Join(ts[1..], d)
  }

  /** The text without its delimiters. */
  function Kept(s: string, delims: string): string {
    if s == [] then [] else (if s[0] in delims then [] else [s[0]]) + Kept(s[1..], delims)
  }

  ghost predicate IsToken(t: string, delims: string) {
    t != [] && forall i :: 0 <= i < |t| ==> t[i] !in delims
  }

  // ---- properties ------------------------------------------------------------------------------

  lemma {:induction false} KeptRun(s: string, n: nat, delims: string)
    requires n <= |s| && forall i :: 0 <= i < n ==> s[i] !in delims
    ensures Kept(s, delims) == s[..n] + Kept(s[n..], delims)
  {
    if n > 0 {
      KeptRun(s[1..], n - 1, delims);
      TailSlices(s, 1, n, n);
      ConsSlice(s, n);
    }
  }

  /** Nothing but delimiters is lost, and no token is empty or holds a delimiter. */
  lemma {:induction false} TokensKeepText(s: string, delims: string)
    ensures Concat(Tokens(s, delims)) == Kept(s, delims)
    ensures forall i :: 0 <= i < |Tokens(s, delims)| ==> IsToken(Tokens(s, delims)[i], delims)
  {
    if s != [] {
      if s[0] in delims {
        TokensKeepText(s[1..], delims);
      } else {
        var n := Run(s, delims);
        TokensKeepText(s[n..], delims);
        KeptRun(s, n, delims);
        assert ([s[..n]] + Tokens(s[n..], delims))[1..] == Tokens(s[n..], delims);
      }
    }
  }

  lemma {:induction false} RunOfToken(t: string, rest: string, delims: string)
    requires (forall i :: 0 <= i < |t| ==> t[i] !in delims) && (rest == [] || rest[0] in delims)
    ensures Run(t + rest, delims) == |t|
  {
    if t == [] {
      assert t + rest == rest;
    } else {
      assert (t + rest)[1..] == t[1..] + rest;
      RunOfToken(t[1..], rest, delims);
    }
  }

  /** Tokenizing inverts joining: any tokens put together with a delimiter come apart again. */
  lemma {:induction false} TokensOfJoin(ts: seq<string>, d: char, delims: string)
    requires d in delims && forall i :: 0 <= i < |ts| ==> IsToken(ts[i], delims)
    ensures Tokens(Join(ts, d), delims) == ts
  {
    if ts != [] {
      var t, more := ts[0], ts[1..];
      assert ts == [t] + more;
      if more == [] {
        assert t + [] == t;
        RunOfToken(t, [], delims);
        TokensOfToken(t, [], delims);
      } else {
        var rest := [d] + Join(more, d);
        Assoc(t, [d], Join(more, d));
        RunOfToken(t, rest, delims);
        TokensOfToken(t, rest, delims);
        TokensOfJoin(more, d, delims);
        assert rest[1..] == Join(more, d);
      }
    }
  }

  lemma TokensOfToken(t: string, rest: string, delims: string)
    requires IsToken(t, delims) && Run(t + rest, delims) == |t|
    ensures Tokens(t + rest, delims) == [t] + Tokens(rest, delims)
  {
    assert (t + rest)[0] == t[0];
    assert (t + rest)[..|t|] == t && (t + rest)[|t|..] == rest;
  }

  // ---- implementation -----------------------------------------------------------------------------

  /** find_first_not_of from a position; |s| stands for npos. */
  method FindFirstNotOf(s: string, delims: string, from: nat) returns (p: nat)
    ensures from <= |s| ==> from <= p <= |s| && Tokens(s[p..], delims) == Tokens(s[from..], delims)
    ensures from > |s| ==> p == |s|
    ensures p < |s| ==> s[p] !in delims
  {
    if from > |s| { return |s|; }
    p := from;
    while p < |s| && s[p] in delims
      invariant from <= p <= |s| && Tokens(s[p..], delims) == Tokens(s[from..], delims)
    {
      assert s[p..][1..] == s[p + 1..];
      p := p + 1;
    }
  }

  /** find_first_of from a position; |s| stands for npos. */
  method FindFirstOf(s: string, delims: string, from: nat) returns (p: nat)
    requires from <= |s|
    ensures from <= p <= |s| && (p < |s| ==> s[p] in delims)
    ensures forall i :: from <= i < p ==> s[i] !in delims
  {
    p := from;
    while p < |s| && s[p] !in delims
      invariant from <= p <= |s| && forall i :: from <= i < p ==> s[i] !in delims
    {
      p := p + 1;
    }
  }

  method Tokenize(input: string, delims: string) returns (output: seq<string>)
    ensures output == Tokens(input, delims)
  {
    output := [];
    var begin, end := 0, 0;
    var done := false;
    assert input[0..] == input && [] + Tokens(input, delims) == Tokens(input, delims);
    while !done
      invariant !done ==> begin <= |input| && output + Tokens(input[begin..], delims) == Tokens(input, delims)
      invariant done ==> output == Tokens(input, delims)
      decreases !done, |input| - begin
    {
      begin := FindFirstNotOf(input, delims, begin);
      if begin == |input| {
        assert input[begin..] == [];
        assert output + [] == output;
        return;
      }
      end := FindFirstOf(input, delims, begin + 1);
      output := CutToken(input, delims, begin, end, output);
      done := end == |input|;
      if done { assert input[end..] == [] && output + [] == output; }
      begin := end + 1;
    }
  }

  /** Push one token; its delimiter, if any, is skipped with it. */
  method CutToken(input: string, delims: string, begin: nat, end: nat, output0: seq<string>)
    returns (output: seq<string>)
    requires begin < end <= |input| && (end < |input| ==> input[end] in delims)
    requires forall i :: begin <= i < end ==> input[i] !in delims
    ensures output == output0 + [input[begin..end]]
    ensures output + Tokens(input[end..], delims) == output0 + Tokens(input[begin..], delims)
    ensures end < |input| ==> Tokens(input[end + 1..], delims) == Tokens(input[end..], delims)
  {
    output := output0 + [input[begin..end]];
    var t, rest := input[begin..end], input[end..];
    assert input[begin..] == t + rest;
    RunOfToken(t, rest, delims);
    TokensOfToken(t, rest, delims);
    Assoc(output0, [t], Tokens(rest, delims));
    if end < |input| { assert rest[1..] == input[end + 1..]; }
  }
}
