/**
 * The Tokenizer (`parseIntoTokens`): splits a body string into raw tokens
 * wherever a member of the active delimiter set occurs.  The string is scanned
 * left to right; at each position the longest delimiter that starts there is
 * consumed, and scanning resumes right after it.  Leading, trailing and
 * adjacent delimiters give empty tokens, and an empty body gives one empty
 * token.  The function is total: it never fails.
 */
module Tokenizer {

  /** The delimiters used when the input declares none: comma and newline. */
  const Default: seq<string> := [",", "\n"]

  /** `d` starts nowhere inside `t`. */
  ghost predicate Free(t: string, d: string)
  {
    forall i :: 0 <= i <= |t| ==> !(d <= t[i..])
  }

  /**
   * The length of the longest non-empty member of `ds` that is a prefix of
   * `s`, or 0 when no delimiter starts at the front of `s`.
   */
  function MatchLength(s: string, ds: seq<string>): (n: nat)
    ensures n <= |s|
    ensures n > 0 ==> s[..n] in ds
    ensures forall i :: 0 <= i < |ds| && ds[i] != "" && ds[i] <= s ==> 0 < |ds[i]| <= n
    decreases |ds|
  {
    if ds == [] then 0
    else
      var m := MatchLength(s, ds[1..]);
      if ds[0] != "" && ds[0] <= s && |ds[0]| > m then
        assert s[..|ds[0]|] == ds[0];
        |ds[0]|
      else m
  }

  /** The tokens of `s` under the delimiter set `ds`. */
  function Tokens(s: string, ds: seq<string>): (r: seq<string>)
    ensures |r| >= 1
    ensures r[0] <= s
    decreases |s|
  {
    if s == [] then [""]
    else
      var n := MatchLength(s, ds);
      if n > 0 then [""] + Tokens(s[n..], ds)
      else
        var rest := Tokens(s[1..], ds);
        [[s[0]] + rest[0]] + rest[1..]
  }

  /** The delimiter occurrences that `Tokens` consumes, in order. */
  function Separators(s: string, ds: seq<string>): (r: seq<string>)
    ensures forall d :: d in r ==> d in ds && d != ""
    decreases |s|
  {
    if s == [] then []
    else
      var n := MatchLength(s, ds);
      if n > 0 then [s[..n]] + Separators(s[n..], ds)
      else Separators(s[1..], ds)
  }

  /** `ts[0] + seps[0] + ts[1] + seps[1] + ... + ts[|seps|]`. */
  function Interleave(ts: seq<string>, seps: seq<string>): string
    requires |ts| == |seps| + 1
    decreases |seps|
  {
    if seps == [] then ts[0] else ts[0] + seps[0] + Interleave(ts[1..], seps[1..])
  }

  /** The members of `ts` joined by one fixed separator `sep`. */
  function JoinWith(ts: seq<string>, sep: string): string
    requires |ts| >= 1
    decreases |ts|
  {
    if |ts| == 1 then ts[0] else ts[0] + sep + JoinWith(ts[1..], sep)
  }

  /** The number of occurrences of `c` in `s`. */
  function Count(s: string, c: char): nat
    decreases |s|
  {
    if s == [] then 0 else (if s[0] == c then 1 else 0) + Count(s[1..], c)
  }

  lemma {:induction false} InterleaveCons(c: char, ts: seq<string>, seps: seq<string>)
    requires |ts| == |seps| + 1
    ensures Interleave([[c] + ts[0]] + ts[1..], seps) == [c] + Interleave(ts, seps)
  {
    var ts' := [[c] + ts[0]] + ts[1..];
    if seps != [] {
      var tail := seps[0] + Interleave(ts[1..], seps[1..]);
      assert ts'[1..] == ts[1..];
      assert Interleave(ts', seps) == ([c] + ts[0]) + tail;
      assert Interleave(ts, seps) == ts[0] + tail;
      assert ([c] + ts[0]) + tail == [c] + (ts[0] + tail);
    }
  }

  /**
   * Tokens and consumed delimiters alternate and rebuild the input exactly:
   * there is one more token than delimiter, and nothing is lost or added.
   */
  lemma {:induction false} TokensRebuild(s: string, ds: seq<string>)
    ensures |Tokens(s, ds)| == |Separators(s, ds)| + 1
    ensures Interleave(Tokens(s, ds), Separators(s, ds)) == s
    decreases |s|
  {
    if s != [] {
      var n := MatchLength(s, ds);
      if n > 0 {
        TokensRebuild(s[n..], ds);
        UnfoldAtDelimiter(s, ds);
        RebuildAtDelimiter(s, n, Tokens(s[n..], ds), Separators(s[n..], ds));
      } else {
        TokensRebuild(s[1..], ds);
        RebuildAtCharacter(s, ds);
      }
    }
  }

  /** Putting a delimiter and an empty token in front rebuilds the longer text. */
  lemma {:induction false} RebuildAtDelimiter(s: string, n: nat, ts: seq<string>, seps: seq<string>)
    requires 0 < n <= |s| && |ts| == |seps| + 1 && Interleave(ts, seps) == s[n..]
    ensures Interleave([""] + ts, [s[..n]] + seps) == s
  {
    InterleaveDelimiterFront(ts, s[..n], seps);
    assert s[..n] + s[n..] == s;
  }

  /** At a delimiter, an empty token ends and the delimiter is the first separator. */
  lemma UnfoldAtDelimiter(s: string, ds: seq<string>)
    requires MatchLength(s, ds) > 0
    ensures Tokens(s, ds) == [""] + Tokens(s[MatchLength(s, ds)..], ds)
    ensures Separators(s, ds) == [s[..MatchLength(s, ds)]] + Separators(s[MatchLength(s, ds)..], ds)
  {
  }

  /** A leading empty token contributes nothing: the text starts with the first separator. */
  lemma {:induction false} InterleaveDelimiterFront(ts: seq<string>, sep: string, seps: seq<string>)
    requires |ts| == |seps| + 1
    ensures Interleave([""] + ts, [sep] + seps) == sep + Interleave(ts, seps)
  {
    assert ([""] + ts)[1..] == ts;
    assert ([sep] + seps)[1..] == seps;
    assert "" + sep == sep;
  }

  /** One step of TokensRebuild: an ordinary character at the front of `s`. */
  lemma {:induction false} RebuildAtCharacter(s: string, ds: seq<string>)
    requires s != [] && MatchLength(s, ds) == 0
    requires |Tokens(s[1..], ds)| == |Separators(s[1..], ds)| + 1
    requires Interleave(Tokens(s[1..], ds), Separators(s[1..], ds)) == s[1..]
    ensures |Tokens(s, ds)| == |Separators(s, ds)| + 1
    ensures Interleave(Tokens(s, ds), Separators(s, ds)) == s
  {
    var ts, seps := Tokens(s[1..], ds), Separators(s[1..], ds);
    assert Tokens(s, ds) == [[s[0]] + ts[0]] + ts[1..];
    assert Separators(s, ds) == seps;
    InterleaveCons(s[0], ts, seps);
    assert s == [s[0]] + s[1..];
  }


  /** No token contains any (non-empty) member of the delimiter set. */
  lemma {:induction false} TokensAvoidDelimiters(s: string, ds: seq<string>)
    ensures forall k, d :: 0 <= k < |Tokens(s, ds)| && d in ds && d != "" ==> Free(Tokens(s, ds)[k], d)
    decreases |s|
  {
    var r := Tokens(s, ds);
    if s != [] {
      var n := MatchLength(s, ds);
      if n > 0 {
        TokensAvoidDelimiters(s[n..], ds);
        assert r[1..] == Tokens(s[n..], ds);
      } else {
        var rest := Tokens(s[1..], ds);
        TokensAvoidDelimiters(s[1..], ds);
        forall k, d | 0 <= k < |r| && d in ds && d != "" ensures Free(r[k], d) {
          if k == 0 {
            forall i | 0 <= i <= |r[0]| ensures !(d <= r[0][i..]) {
              if i == 0 {
                assert !(d <= s);
              } else {
                assert r[0][i..] == rest[0][i - 1..];
              }
            }
          } else {
            assert r[k] == rest[k];
          }
        }
      }
    }
  }

  /**
   * A prefix `t` at none of whose positions a delimiter starts is glued to
   * the front of the first token of what follows it.
   */
  lemma {:induction false} TokensAfterPlain(t: string, x: string, ds: seq<string>)
    requires forall p :: 0 <= p < |t| ==> MatchLength((t + x)[p..], ds) == 0
    ensures Tokens(t + x, ds) == [t + Tokens(x, ds)[0]] + Tokens(x, ds)[1..]
    decreases |t|
  {
    if t == [] {
      assert t + x == x;
      var xs := Tokens(x, ds);
      assert t + xs[0] == xs[0];
      assert xs == [xs[0]] + xs[1..];
    } else {
      var s := t + x;
      assert s[0..] == s;
      assert MatchLength(s, ds) == 0;
      assert s[1..] == t[1..] + x;
      forall p | 0 <= p < |t[1..]| ensures MatchLength((t[1..] + x)[p..], ds) == 0 {
        assert (t[1..] + x)[p..] == s[p + 1..];
      }
      var rest, xs := Tokens(s[1..], ds), Tokens(x, ds);
      assert Tokens(s, ds) == [[s[0]] + rest[0]] + rest[1..];
      TokensAfterPlain(t[1..], x, ds);
      assert rest == [t[1..] + xs[0]] + xs[1..];
      assert [s[0]] + (t[1..] + xs[0]) == t + xs[0];
    }
  }

  /** A delimiter that is the longest match at the front ends the current token. */
  lemma TokensAfterDelimiter(d: string, x: string, ds: seq<string>)
    requires d != "" && MatchLength(d + x, ds) == |d|
    ensures Tokens(d + x, ds) == [""] + Tokens(x, ds)
  {
    assert (d + x)[|d|..] == x;
  }

  /** No character of `t` is the first character of a delimiter. */
  ghost predicate Plain(t: string, ds: seq<string>)
  {
    forall p, i :: 0 <= p < |t| && 0 <= i < |ds| && ds[i] != "" ==> ds[i][0] != t[p]
  }

  /** No two different delimiters start with the same character. */
  ghost predicate Unambiguous(ds: seq<string>)
  {
    forall i, j :: 0 <= i < |ds| && 0 <= j < |ds| && ds[i] != "" && ds[j] != "" && ds[i][0] == ds[j][0] ==> ds[i] == ds[j]
  }

  /** No delimiter starts at the front of a string whose first character starts none. */
  lemma NoMatchAtPlainChar(u: string, ds: seq<string>)
    requires |u| >= 1
    requires forall i :: 0 <= i < |ds| && ds[i] != "" ==> ds[i][0] != u[0]
    ensures MatchLength(u, ds) == 0
  {
  }

  /** With unambiguous delimiters, a delimiter at the front of `u` is the one matched. */
  lemma MatchUnambiguous(u: string, d: string, ds: seq<string>)
    requires Unambiguous(ds) && d in ds && d != "" && d <= u
    ensures MatchLength(u, ds) == |d|
  {
    var n := MatchLength(u, ds);
    assert u[..n] in ds;
    assert u[..n][0] == u[0] == d[0];
  }

  /**
   * The inverse of `TokensRebuild`: interleaving tokens none of whose
   * characters starts a delimiter with non-empty members of an unambiguous
   * set, and then tokenizing, gives back the tokens.
   */
  lemma {:induction false} TokensOfInterleave(ts: seq<string>, seps: seq<string>, ds: seq<string>)
    requires |ts| == |seps| + 1
    requires Unambiguous(ds)
    requires forall k :: 0 <= k < |ts| ==> Plain(ts[k], ds)
    requires forall k :: 0 <= k < |seps| ==> seps[k] in ds && seps[k] != ""
    ensures Tokens(Interleave(ts, seps), ds) == ts
    decreases |seps|
  {
    var t0 := ts[0];
    var rest: string := if seps == [] then "" else seps[0] + Interleave(ts[1..], seps[1..]);
    assert Interleave(ts, seps) == t0 + rest;
    assert Plain(t0, ds);
    PlainPrefix(t0, rest, ds);
    if seps == [] {
      assert Tokens(rest, ds) == [""];
      assert ts == [t0];
    } else {
      var r := Interleave(ts[1..], seps[1..]);
      SeparatorPrefix(seps[0], r, ds);
      TokensOfInterleave(ts[1..], seps[1..], ds);
      var tr := Tokens(rest, ds);
      assert tr[0] == "" && tr[1..] == ts[1..];
      assert t0 + "" == t0;
      assert ts == [t0] + ts[1..];
    }
  }

  /**
   * A token none of whose characters starts a delimiter, then a non-empty
   * member of an unambiguous set, starts the tokens.
   */
  lemma TokensCons(t: string, sep: string, rest: string, ds: seq<string>)
    requires Unambiguous(ds) && Plain(t, ds) && sep in ds && sep != ""
    ensures Tokens(t + sep + rest, ds) == [t] + Tokens(rest, ds)
  {
    assert t + sep + rest == t + (sep + rest);
    PlainPrefix(t, sep + rest, ds);
    SeparatorPrefix(sep, rest, ds);
    assert t + "" == t;
  }

  /** A plain prefix is glued to the first token of what follows it. */
  lemma {:induction false} PlainPrefix(t: string, x: string, ds: seq<string>)
    requires Plain(t, ds)
    ensures Tokens(t + x, ds) == [t + Tokens(x, ds)[0]] + Tokens(x, ds)[1..]
  {
    forall p | 0 <= p < |t| ensures MatchLength((t + x)[p..], ds) == 0 {
      assert (t + x)[p..][0] == t[p];
      NoMatchAtPlainChar((t + x)[p..], ds);
    }
    TokensAfterPlain(t, x, ds);
  }

  /** A delimiter in front of `x` ends an empty token. */
  lemma {:induction false} SeparatorPrefix(sep: string, x: string, ds: seq<string>)
    requires Unambiguous(ds) && sep in ds && sep != ""
    ensures Tokens(sep + x, ds) == [""] + Tokens(x, ds)
  {
    MatchUnambiguous(sep + x, sep, ds);
    TokensAfterDelimiter(sep, x, ds);
  }

  /** Text none of whose characters starts a delimiter is a single token. */
  lemma TokensPlain(t: string, ds: seq<string>)
    requires Plain(t, ds)
    ensures Tokens(t, ds) == [t]
  {
    PlainPrefix(t, "", ds);
    assert t + "" == t;
  }

  /** Under the default delimiters, a string without newline only has commas as separators. */
  lemma {:induction false} DefaultSeparatorsAreCommas(s: string)
    requires '\n' !in s
    ensures forall sep :: sep in Separators(s, Default) ==> sep == ","
    decreases |s|
  {
    if s != [] {
      var n := MatchLength(s, Default);
      if n > 0 {
        assert s[..n] in Default;
        assert s[..n] != "\n" by { assert s[0] in s; }
        assert '\n' !in s[n..] by {
          forall i | 0 <= i < |s[n..]| ensures s[n..][i] != '\n' { assert s[n..][i] == s[n + i]; }
        }
        DefaultSeparatorsAreCommas(s[n..]);
      } else {
        assert '\n' !in s[1..] by {
          forall i | 0 <= i < |s[1..]| ensures s[1..][i] != '\n' { assert s[1..][i] == s[i + 1]; }
        }
        DefaultSeparatorsAreCommas(s[1..]);
      }
    }
  }

  /** Interleaving with a constant separator is joining with it. */
  lemma {:induction false} InterleaveUniform(ts: seq<string>, seps: seq<string>, sep: string)
    requires |ts| == |seps| + 1
    requires forall x :: x in seps ==> x == sep
    ensures Interleave(ts, seps) == JoinWith(ts, sep)
    decreases |seps|
  {
    if seps != [] {
      assert seps[0] in seps;
      assert forall x :: x in seps[1..] ==> x in seps;
      InterleaveUniform(ts[1..], seps[1..], sep);
    }
  }

  /**
   * Under the default delimiters there is one token more than there are
   * commas and newlines in the input.
   */
  lemma {:induction false} DefaultTokenCount(s: string)
    ensures |Tokens(s, Default)| == Count(s, ',') + Count(s, '\n') + 1
    decreases |s|
  {
    if s != [] {
      var n := MatchLength(s, Default);
      if n > 0 {
        assert s[..n] in Default;
        assert n == 1 && (s[0] == ',' || s[0] == '\n');
        DefaultTokenCount(s[n..]);
      } else {
        assert "," in Default && "\n" in Default;
        assert !("," <= s) && !("\n" <= s);
        assert s[..1] == [s[0]];
        DefaultTokenCount(s[1..]);
      }
    }
  }

  /** A string without `c` has no occurrence of it to count. */
  lemma {:induction false} CountAbsent(s: string, c: char)
    requires c !in s
    ensures Count(s, c) == 0
    decreases |s|
  {
    if s != [] {
      assert s[1..] == s[1..];
      assert c !in s[1..] by {
        forall i | 0 <= i < |s[1..]| ensures s[1..][i] != c { assert s[1..][i] == s[i + 1]; }
      }
      CountAbsent(s[1..], c);
    }
  }

  /**
   * For a string without newline, the default tokens joined with commas give
   * back the input, no token holds a comma, and there is one token more than
   * there are commas.
   */
  lemma CommaSplitWithoutNewline(s: string)
    requires '\n' !in s
    ensures JoinWith(Tokens(s, Default), ",") == s
    ensures forall k :: 0 <= k < |Tokens(s, Default)| ==> Free(Tokens(s, Default)[k], ",")
    ensures |Tokens(s, Default)| == Count(s, ',') + 1
  {
    TokensRebuild(s, Default);
    DefaultSeparatorsAreCommas(s);
    InterleaveUniform(Tokens(s, Default), Separators(s, Default), ",");
    TokensAvoidDelimiters(s, Default);
    assert "," in Default;
    DefaultTokenCount(s);
    CountAbsent(s, '\n');
  }

  /** `t` begins `s`, and no delimiter starts at any position of `t`. */
  ghost predicate Leads(s: string, ds: seq<string>, t: string)
    requires |t| <= |s|
  {
    s[..|t|] == t && forall p :: 0 <= p < |t| ==> MatchLength(s[p..], ds) == 0
  }

  /**
   * The scanning rule, stated without reference to `Tokens`: `ts` and `seps`
   * split `s` when `ts[0]` leads `s`, and then either `s` ends, or the
   * longest delimiter at that point is `seps[0]` and the rest of `s` after it
   * splits the same way into `ts[1..]` and `seps[1..]`.  So each delimiter is
   * taken at the earliest position where one starts, and the longest one is
   * taken there.
   */
  ghost predicate Scan(s: string, ds: seq<string>, ts: seq<string>, seps: seq<string>)
    decreases |seps|
  {
    |ts| == |seps| + 1 && |ts[0]| <= |s| && Leads(s, ds, ts[0]) &&
    if seps == [] then |s| == |ts[0]|
    else
      var x := s[|ts[0]|..];
      seps[0] != "" && MatchLength(x, ds) == |seps[0]| && x[..|seps[0]|] == seps[0] &&
      Scan(x[|seps[0]|..], ds, ts[1..], seps[1..])
  }

  /** The tokens and separators `Tokens` and `Separators` produce follow the scanning rule. */
  lemma {:induction false} ScanOfTokens(s: string, ds: seq<string>)
    ensures Scan(s, ds, Tokens(s, ds), Separators(s, ds))
    decreases |s|
  {
    if s == [] {
      assert Tokens(s, ds) == [""] && Separators(s, ds) == [];
    } else if MatchLength(s, ds) > 0 {
      var n := MatchLength(s, ds);
      ScanOfTokens(s[n..], ds);
      UnfoldAtDelimiter(s, ds);
      ScanAtDelimiter(s, ds, Tokens(s[n..], ds), Separators(s[n..], ds));
    } else {
      ScanOfTokens(s[1..], ds);
      var ts := Tokens(s[1..], ds);
      assert Tokens(s, ds) == [[s[0]] + ts[0]] + ts[1..];
      assert Separators(s, ds) == Separators(s[1..], ds);
      ScanAtCharacter(s, ds, ts, Separators(s[1..], ds));
    }
  }

  /** One step of ScanOfTokens: a delimiter at the front of `s` ends an empty token. */
  lemma ScanAtDelimiter(s: string, ds: seq<string>, ts: seq<string>, seps: seq<string>)
    requires MatchLength(s, ds) > 0
    requires Scan(s[MatchLength(s, ds)..], ds, ts, seps)
    ensures Scan(s, ds, [""] + ts, [s[..MatchLength(s, ds)]] + seps)
  {
    var n := MatchLength(s, ds);
    var sep := s[..n];
    assert s[0..] == s && |sep| == n;
    assert Leads(s, ds, "");
    assert ([""] + ts)[1..] == ts;
    assert ([sep] + seps)[1..] == seps;
  }

  /** One step of ScanOfTokens: a character where no delimiter starts joins the first token. */
  lemma ScanAtCharacter(s: string, ds: seq<string>, ts: seq<string>, seps: seq<string>)
    requires s != [] && MatchLength(s, ds) == 0
    requires Scan(s[1..], ds, ts, seps)
    ensures Scan(s, ds, [[s[0]] + ts[0]] + ts[1..], seps)
  {
    var u, t := s[1..], ts[0];
    var t' := [s[0]] + t;
    var ts' := [t'] + ts[1..];
    assert ts'[0] == t' && ts'[1..] == ts[1..];
    LeadsCons(s, ds, t);
    assert s[|t'|..] == u[|t|..];
  }

  /** A character where no delimiter starts, in front of a leading stretch, extends it. */
  lemma LeadsCons(s: string, ds: seq<string>, t: string)
    requires s != [] && MatchLength(s, ds) == 0
    requires |t| <= |s[1..]| && Leads(s[1..], ds, t)
    ensures |[s[0]] + t| <= |s| && Leads(s, ds, [s[0]] + t)
  {
    var u, t' := s[1..], [s[0]] + t;
    assert s[..|t'|] == [s[0]] + u[..|t|];
    forall p | 0 <= p < |t'| ensures MatchLength(s[p..], ds) == 0 {
      if p == 0 {
        assert s[p..] == s;
      } else {
        assert s[p..] == u[p - 1..];
      }
    }
  }

  /** A prefix at none of whose positions a delimiter starts adds no separator. */
  lemma {:induction false} SeparatorsAfterPlain(t: string, x: string, ds: seq<string>)
    requires forall p :: 0 <= p < |t| ==> MatchLength((t + x)[p..], ds) == 0
    ensures Separators(t + x, ds) == Separators(x, ds)
    decreases |t|
  {
    if t == [] {
      assert t + x == x;
    } else {
      var s := t + x;
      assert s[0..] == s;
      assert MatchLength(s, ds) == 0;
      assert s[1..] == t[1..] + x;
      forall p | 0 <= p < |t[1..]| ensures MatchLength((t[1..] + x)[p..], ds) == 0 {
        assert (t[1..] + x)[p..] == s[p + 1..];
      }
      SeparatorsAfterPlain(t[1..], x, ds);
    }
  }

  /**
   * The scanning rule has only one outcome: any split of `s` that follows it
   * is the one `Tokens` and `Separators` produce.
   */
  lemma {:induction false} ScanUnique(s: string, ds: seq<string>, ts: seq<string>, seps: seq<string>)
    requires Scan(s, ds, ts, seps)
    ensures Tokens(s, ds) == ts && Separators(s, ds) == seps
    decreases |seps|
  {
    if seps == [] {
      ScanLast(s, ds, ts);
    } else {
      ScanSplit(s, ds, ts, seps);
      ScanUnique(s[|ts[0]|..][|seps[0]|..], ds, ts[1..], seps[1..]);
      ScanStep(s[|ts[0]|..], ds, ts, seps);
    }
  }

  /** A scan with more than one token, taken apart at its first separator. */
  lemma ScanSplit(s: string, ds: seq<string>, ts: seq<string>, seps: seq<string>)
    requires Scan(s, ds, ts, seps) && seps != []
    ensures s == ts[0] + s[|ts[0]|..]
    ensures forall p :: 0 <= p < |ts[0]| ==> MatchLength((ts[0] + s[|ts[0]|..])[p..], ds) == 0
    ensures seps[0] != "" && MatchLength(s[|ts[0]|..], ds) == |seps[0]|
    ensures s[|ts[0]|..][..|seps[0]|] == seps[0]
    ensures Scan(s[|ts[0]|..][|seps[0]|..], ds, ts[1..], seps[1..])
  {
    assert s == ts[0] + s[|ts[0]|..];
  }

  /** A scan with a single token: the whole of `s` is that token. */
  lemma ScanLast(s: string, ds: seq<string>, ts: seq<string>)
    requires Scan(s, ds, ts, [])
    ensures Tokens(s, ds) == ts && Separators(s, ds) == []
  {
    var t := ts[0];
    assert s == t + "" && ts == [t];
    TokensAfterPlain(t, "", ds);
    SeparatorsAfterPlain(t, "", ds);
    assert Tokens("", ds) == [""] && Separators("", ds) == [];
    assert t + "" == t;
  }

  /**
   * One step of ScanUnique: a leading stretch `ts[0]` without delimiters,
   * then the longest delimiter `seps[0]`, then a rest that splits into
   * `ts[1..]` and `seps[1..]`.
   */
  lemma ScanStep(x: string, ds: seq<string>, ts: seq<string>, seps: seq<string>)
    requires |ts| == |seps| + 1 && seps != []
    requires forall p :: 0 <= p < |ts[0]| ==> MatchLength((ts[0] + x)[p..], ds) == 0
    requires seps[0] != "" && MatchLength(x, ds) == |seps[0]| && x[..|seps[0]|] == seps[0]
    requires Tokens(x[|seps[0]|..], ds) == ts[1..] && Separators(x[|seps[0]|..], ds) == seps[1..]
    ensures Tokens(ts[0] + x, ds) == ts && Separators(ts[0] + x, ds) == seps
  {
    StepTokens(ts[0], x, ds, ts[1..]);
    assert ts == [ts[0]] + ts[1..];
    StepSeparators(ts[0], x, ds, seps[0], seps[1..]);
    assert seps == [seps[0]] + seps[1..];
  }

  /** The tokens half of ScanStep. */
  lemma StepTokens(t: string, x: string, ds: seq<string>, rest: seq<string>)
    requires forall p :: 0 <= p < |t| ==> MatchLength((t + x)[p..], ds) == 0
    requires MatchLength(x, ds) > 0
    requires Tokens(x[MatchLength(x, ds)..], ds) == rest
    ensures Tokens(t + x, ds) == [t] + rest
  {
    TokensAfterPlain(t, x, ds);
    UnfoldAtDelimiter(x, ds);
    assert t + "" == t;
  }

  /** The separators half of ScanStep. */
  lemma StepSeparators(t: string, x: string, ds: seq<string>, sep: string, rest: seq<string>)
    requires forall p :: 0 <= p < |t| ==> MatchLength((t + x)[p..], ds) == 0
    requires MatchLength(x, ds) == |sep| > 0 && x[..|sep|] == sep
    requires Separators(x[|sep|..], ds) == rest
    ensures Separators(t + x, ds) == [sep] + rest
  {
    SeparatorsAfterPlain(t, x, ds);
    UnfoldAtDelimiter(x, ds);
  }
}
