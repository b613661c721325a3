/** The server's per-client ignore filter (`is_ignored`): a path is ignored
    when one of the comma-separated tokens of the client's ignore list occurs
    in it. Tokens are what `strtok(list, ",")` yields, so empty fields between
    commas are never tokens. */
module IgnoreFilter {
  import opened CText

  /** Number of leading characters of `s` that are not commas. */
  function FieldLength(s: string): (n: nat)
    ensures n <= |s|
    ensures forall k :: 0 <= k < n ==> s[k] != ','
    ensures n < |s| ==> s[n] == ','
    decreases |s|
  {
    if s == [] || s[0] == ',' then 0 else 1 + FieldLength(s[1..])
  }

  /** The tokens successive `strtok` calls return: maximal runs without a comma, in order. */
  function Tokens(s: string): (ts: seq<string>)
    ensures forall k :: 0 <= k < |ts| ==> ts[k] != [] && ',' !in ts[k]
    decreases |s|
  {
    if s == [] then []
    else if s[0] == ',' then Tokens(s[1..])
    else
      var n := FieldLength(s);
      assert ',' !in s[..n] by {
        forall k | 0 <= k < n ensures s[..n][k] != ',' { }
      }
      [s[..n]] + Tokens(s[n..])
  }

  /** One `strtok` call on the unscanned text `s`: the next token, if any, and the text after it. */
  function NextToken(s: string): (r: (Option<string>, string))
    ensures r.0.None? ==> Tokens(s) == []
    ensures r.0.Some? ==> |r.1| < |s| && Tokens(s) == [r.0.value] + Tokens(r.1)
    decreases |s|
  {
    if s == [] then (None, [])
    else if s[0] == ',' then NextToken(s[1..])
    else
      var n := FieldLength(s);
      (Some(s[..n]), s[n..])
  }

  /** The reference reading of "comma-separated": every field between commas, empty ones included. */
  function Fields(s: string): (fs: seq<string>)
    ensures |fs| >= 1
    decreases |s|
  {
    var n := FieldLength(s);
    if n == |s| then [s] else [s[..n]] + Fields(s[n + 1..])
  }

  /** The non-empty members of `fs`, in order. */
  function NonEmpty(fs: seq<string>): (r: seq<string>)
    ensures forall t :: t in r <==> t in fs && t != []
    decreases |fs|
  {
    if fs == [] then []
    else
      assert forall t :: t in fs <==> t == fs[0] || t in fs[1..];
      (if fs[0] == [] then [] else [fs[0]]) + NonEmpty(fs[1..])
  }

  /** Some token of the sequence occurs in `name`. */
  predicate Matches(tokens: seq<string>, name: string)
  {
    exists k :: 0 <= k < |tokens| && IsSubstring(tokens[k], name)
  }

  /** The filter: `name` is ignored under `list` (server `is_ignored`). */
  predicate Ignored(list: string, name: string)
  {
    Matches(Tokens(list), name)
  }

  lemma MatchesCons(t: string, ts: seq<string>, name: string)
    ensures Matches([t] + ts, name) <==> IsSubstring(t, name) || Matches(ts, name)
  {
    var all := [t] + ts;
    if Matches(ts, name) {
      var k :| 0 <= k < |ts| && IsSubstring(ts[k], name);
      assert all[k + 1] == ts[k];
    }
    if Matches(all, name) && !IsSubstring(t, name) {
      var k :| 0 <= k < |all| && IsSubstring(all[k], name);
      assert k > 0 && all[k] == ts[k - 1];
    }
    assert all[0] == t;
  }

  /** strtok's tokens are exactly the non-empty comma-separated fields. */
  lemma {:induction false} TokensAreNonEmptyFields(s: string)
    ensures Tokens(s) == NonEmpty(Fields(s))
    decreases |s|
  {
    var n := FieldLength(s);
    if s == [] {
      assert Fields(s) == [[]];
      assert NonEmpty([[]]) == [] + NonEmpty([]);
    } else if s[0] == ',' {
      var fs := Fields(s);
      assert n == 0 && fs == [[]] + Fields(s[1..]);
      assert fs[1..] == Fields(s[1..]);
      TokensAreNonEmptyFields(s[1..]);
    } else if n == |s| {
      assert Fields(s) == [s];
      assert s[..n] == s && s[n..] == [];
      assert NonEmpty([s]) == [s] + NonEmpty([]);
    } else {
      var fs := Fields(s);
      assert fs == [s[..n]] + Fields(s[n + 1..]);
      assert fs[1..] == Fields(s[n + 1..]);
      assert s[n..][0] == ',' && s[n..][1..] == s[n + 1..];
      assert Tokens(s[n..]) == Tokens(s[n + 1..]);
      TokensAreNonEmptyFields(s[n + 1..]);
    }
  }

  /** A name is ignored iff some non-empty comma-separated field of the list occurs in it. */
  lemma IgnoredIff(list: string, name: string)
    ensures Ignored(list, name) <==>
            exists f :: f in Fields(list) && f != [] && IsSubstring(f, name)
  {
    TokensAreNonEmptyFields(list);
    var ts := Tokens(list);
    if Ignored(list, name) {
      var k :| 0 <= k < |ts| && IsSubstring(ts[k], name);
      assert ts[k] in NonEmpty(Fields(list));
    }
    if exists f :: f in Fields(list) && f != [] && IsSubstring(f, name) {
      var f :| f in Fields(list) && f != [] && IsSubstring(f, name);
      assert f in ts;
      var k :| 0 <= k < |ts| && ts[k] == f;
    }
  }

  /** A list made only of commas (or empty) has no tokens. */
  lemma {:induction false} CommasOnlyHaveNoTokens(list: string)
    requires forall k :: 0 <= k < |list| ==> list[k] == ','
    ensures Tokens(list) == []
    decreases |list|
  {
    if list != [] {
      CommasOnlyHaveNoTokens(list[1..]);
    }
  }

  /** An empty list, or one made only of commas, ignores nothing. */
  lemma CommasOnlyIgnoreNothing(list: string, name: string)
    requires forall k :: 0 <= k < |list| ==> list[k] == ','
    ensures !Ignored(list, name)
  {
    CommasOnlyHaveNoTokens(list);
  }

  /** `is_ignored`: walk the list with `strtok`, stop at the first token found in `name`. */
  method IsIgnored(list: string, name: string) returns (ignored: bool)
    ensures ignored == Ignored(list, name)
  {
    var rest := list;
    while true
      invariant Ignored(list, name) == Matches(Tokens(rest), name)
      decreases |rest|
    {
      var next := NextToken(rest);
      if next.0.None? {
        return false;
      }
      MatchesCons(next.0.value, Tokens(next.1), name);
      if IsSubstring(next.0.value, name) {
        return true;
      }
      rest := next.1;
    }
  }
}
