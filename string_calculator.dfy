/**
 * The orchestrator (`parseStringToNums`): extracts the delimiter header,
 * tokenizes the body with the active delimiters and converts every token,
 * keeping order and length.  The first negative literal aborts the whole
 * parse with `InvalidArgument`; no partial result is returned.
 */
module StringCalculator {
  import opened Wrappers
  import opened Tokenizer
  import opened NumberConverter
  import opened DelimiterExtractor

  /** Converts every token in order, or fails if any token is a negative literal. */
  function ConvertAll(ts: seq<string>): (r: Result<seq<nat>, Error>)
    ensures r.Success? <==> forall i :: 0 <= i < |ts| ==> !IsNegativeLiteral(ts[i])
    ensures r.Success? ==> |r.value| == |ts|
    ensures r.Success? ==> forall i :: 0 <= i < |ts| ==> ConvertToNum(ts[i]) == Success(r.value[i])
    decreases |ts|
  {
    if ts == [] then Success([])
    else
      match ConvertToNum(ts[0])
      case Failure(e) => Failure(e)
      case Success(v) =>
        match ConvertAll(ts[1..])
        case Failure(e) => Failure(e)
        case Success(vs) => Success([v] + vs)
  }

  /** Parses an input string into its numbers. */
  function ParseStringToNums(s: string): (r: Result<seq<nat>, Error>)
    ensures r.Success? ==> |r.value| >= 1
    ensures r.Success? ==> forall i :: 0 <= i < |r.value| ==> r.value[i] <= Ceiling
  {
    var h := ExtractDelimiters(s);
    ConvertAll(Tokens(h.body, h.delims))
  }

  /** Tokens that each convert to a known number convert together to those numbers. */
  lemma ConvertAllExact(ts: seq<string>, vs: seq<nat>)
    requires |ts| == |vs|
    requires forall i :: 0 <= i < |ts| ==> ConvertToNum(ts[i]) == Success(vs[i])
    ensures ConvertAll(ts) == Success(vs)
  {
    var r := ConvertAll(ts);
    assert r.Success?;
    forall i | 0 <= i < |ts| ensures r.value[i] == vs[i] {
      assert ConvertToNum(ts[i]) == Success(r.value[i]);
    }
    assert r.value == vs;
  }

  /**
   * Without a header, the input is split on commas and newlines and every
   * token gives one number, in order: as many numbers as there are commas
   * and newlines, plus one.
   */
  lemma ParseWithoutHeader(s: string)
    requires |s| < 2 || s[0] != '/' || s[1] != '/'
    ensures ParseStringToNums(s) == ConvertAll(Tokens(s, Default))
    ensures ParseStringToNums(s).Success? ==> |ParseStringToNums(s).value| == Count(s, ',') + Count(s, '\n') + 1
  {
    assert |s| >= 2 ==> s[..2] != "//" by {
      if |s| >= 2 { assert s[..2][0] == s[0] && s[..2][1] == s[1]; }
    }
    DefaultTokenCount(s);
  }

  /** A well-formed single-character header makes that character the only delimiter of the body. */
  lemma ParseSingleCharHeader(c: char, body: string)
    requires c != '['
    ensures ParseStringToNums("//" + [c] + "\n" + body) == ConvertAll(Tokens(body, [[c]]))
  {
    SingleCharHeader(c, body);
  }

  /**
   * A bracketed header makes its non-empty entries the delimiters of the
   * body; if every entry is empty, the body is split on the defaults.
   */
  lemma ParseBracketHeader(ds: seq<string>, body: string)
    requires |ds| > 0
    requires forall i :: 0 <= i < |ds| ==> !HasPair(ds[i], ']', '[') && !HasPair(ds[i], ']', '\n')
    ensures ParseStringToNums("//[" + JoinWith(ds, EntrySeparator) + "]\n" + body)
         == ConvertAll(Tokens(body, if NonEmpty(ds) == [] then Default else NonEmpty(ds)))
  {
    BracketHeader(ds, body);
  }

  /**
   * An input that starts like a header but is not a well-formed one is parsed
   * as a whole under the default delimiters; its first token holds the
   * header text and converts to 0.
   */
  lemma ParseMalformedHeader(s: string)
    requires |s| >= 2 && s[0] == '/' && s[1] == '/'
    requires if |s| >= 3 && s[2] == '[' then forall k :: 3 <= k ==> !ClosesAt(s, k)
             else |s| < 4 || s[3] != '\n'
    ensures ParseStringToNums(s) == ConvertAll(Tokens(s, Default))
    ensures ParseStringToNums(s).Success? ==> ParseStringToNums(s).value[0] == 0
  {
    assert s[..2] == "//";
    HeaderTextConvertsToZero(s);
    MalformedHeader(s);
  }

  /** The first default token of a text that starts with `/` converts to 0. */
  lemma HeaderTextConvertsToZero(s: string)
    requires |s| >= 1 && s[0] == '/'
    ensures ConvertToNum(Tokens(s, Default)[0]) == Success(0)
  {
    var ts := Tokens(s, Default);
    NoMatchAtPlainChar(s, Default);
    assert ts[0] == [s[0]] + Tokens(s[1..], Default)[0];
    assert ts[0][0] == '/';
  }

  /** Where a token sits in the interleaving of tokens and separators. */
  lemma {:induction false} TokenPosition(ts: seq<string>, seps: seq<string>, k: nat) returns (i: nat)
    requires |ts| == |seps| + 1 && k < |ts|
    ensures i + |ts[k]| <= |Interleave(ts, seps)|
    ensures Interleave(ts, seps)[i..i + |ts[k]|] == ts[k]
    decreases |seps|
  {
    var s := Interleave(ts, seps);
    if k == 0 {
      i := 0;
      if seps != [] {
        assert s == ts[0] + (seps[0] + Interleave(ts[1..], seps[1..]));
      }
    } else {
      var off := |ts[0]| + |seps[0]|;
      var j := TokenPosition(ts[1..], seps[1..], k - 1);
      assert s == (ts[0] + seps[0]) + Interleave(ts[1..], seps[1..]);
      i := off + j;
      assert s[i..i + |ts[k]|] == Interleave(ts[1..], seps[1..])[j..j + |ts[k]|];
    }
  }

  /**
   * A parse fails only because a negative literal occurs in the input: no
   * other malformed text raises an error.
   */
  lemma FailureHasNegativeLiteral(s: string) returns (i: nat, j: nat)
    requires ParseStringToNums(s).Failure?
    ensures i <= j <= |s| && IsNegativeLiteral(s[i..j])
  {
    var h := ExtractDelimiters(s);
    i, j := NegativeInSuffix(s, h.body, h.delims);
  }

  /** A failed conversion of the tokens of `body` points at a negative literal inside `body`. */
  lemma NegativeTokenPosition(body: string, ds: seq<string>) returns (p: nat, q: nat)
    requires ConvertAll(Tokens(body, ds)).Failure?
    ensures p <= q <= |body| && IsNegativeLiteral(body[p..q])
  {
    var ts, seps := Tokens(body, ds), Separators(body, ds);
    var k :| 0 <= k < |ts| && IsNegativeLiteral(ts[k]);
    TokensRebuild(body, ds);
    p := TokenPosition(ts, seps, k);
    q := p + |ts[k]|;
    assert body[p..q] == ts[k];
  }

  /** A failed conversion of the tokens of a suffix `b` of `s` points at a negative literal inside `s`. */
  lemma NegativeInSuffix(s: string, b: string, ds: seq<string>) returns (i: nat, j: nat)
    requires |b| <= |s| && b == s[|s| - |b|..] && ConvertAll(Tokens(b, ds)).Failure?
    ensures i <= j <= |s| && IsNegativeLiteral(s[i..j])
  {
    var p, q := NegativeTokenPosition(b, ds);
    i, j := |s| - |b| + p, |s| - |b| + q;
    SliceOfSuffix(s, |s| - |b|, p, q);
  }

  /** A slice of a suffix of `s` is the slice of `s` shifted by where the suffix starts. */
  lemma SliceOfSuffix(s: string, k: nat, p: nat, q: nat)
    requires k <= |s| && p <= q <= |s| - k
    ensures s[k..][p..q] == s[k + p..k + q]
  {
  }
}
