/**
 * The Delimiter Extractor: recognises an optional header `//<declaration>\n`
 * at the front of the input and yields the active delimiters and the body
 * that follows the header.
 *
 * - Bracketed form: the input starts with `//[`; the header runs to the
 *   first `]` followed by a newline at or after index 3.  Between the outer
 *   brackets, the entries are separated by `][`; each non-empty entry is one
 *   delimiter, so an entry may itself hold `[`, `]` or a newline.  When every
 *   entry is empty the default delimiters apply to the body.  When no `]` and
 *   newline close the header, the input has no header.
 * - Single-character form: `//`, any one character other than `[` (a
 *   newline included), then a newline; that character is the only delimiter.
 * - Anything else has no header (two characters between `//` and the
 *   newline, say, or `//` followed by a newline and then a digit): the whole
 *   input is the body and the defaults apply.
 */
module DelimiterExtractor {
  import opened Wrappers
  import opened Tokenizer

  /** The active delimiters and the text left to tokenize. */
  datatype Header = Header(delims: seq<string>, body: string)

  /** The separator between two entries of a bracketed declaration. */
  const EntrySeparator: string := "]["

  /** `s[k]` and `s[k + 1]` are the `]` and newline that close a bracketed header. */
  predicate ClosesAt(s: string, k: int)
  {
    0 <= k && k + 1 < |s| && s[k] == ']' && s[k + 1] == '\n'
  }

  /** Character `a` immediately followed by character `b` occurs in `t`. */
  predicate HasPair(t: string, a: char, b: char)
  {
    exists i :: 0 <= i && i + 1 < |t| && t[i] == a && t[i + 1] == b
  }

  /** The first index at or after `from` where a bracketed header closes. */
  function FindClose(s: string, from: nat): (r: Option<nat>)
    ensures r.Some? ==> from <= r.value && ClosesAt(s, r.value)
    ensures r.Some? ==> forall j :: from <= j < r.value ==> !ClosesAt(s, j)
    ensures r.None? ==> forall j :: from <= j ==> !ClosesAt(s, j)
    decreases |s| - from
  {
    if from + 1 >= |s| then None
    else if ClosesAt(s, from) then Some(from)
    else FindClose(s, from + 1)
  }

  /** The non-empty members of `ps`, in order. */
  function NonEmpty(ps: seq<string>): (r: seq<string>)
    ensures forall d :: d in r <==> d in ps && d != ""
    ensures |r| <= |ps|
    decreases |ps|
  {
    if ps == [] then []
    else (if ps[0] == "" then [] else [ps[0]]) + NonEmpty(ps[1..])
  }

  /** The delimiters declared between the outer brackets of a bracketed header. */
  function Entries(inner: string): (r: seq<string>)
    ensures forall d :: d in r ==> d != ""
  {
    NonEmpty(Tokens(inner, [EntrySeparator]))
  }

  /** Splits the input into its active delimiters and its body. */
  function ExtractDelimiters(s: string): (h: Header)
    ensures |h.delims| > 0 && forall d :: d in h.delims ==> d != ""
    ensures |h.body| <= |s| && h.body == s[|s| - |h.body|..]
    ensures |h.body| < |s| ==> |s| - |h.body| >= 4 && s[..2] == "//" && s[|s| - |h.body| - 1] == '\n'
    ensures |h.body| == |s| ==> h.delims == Default
  {
    if |s| >= 3 && s[..3] == "//[" then
      match FindClose(s, 3)
      case None => Header(Default, s)
      case Some(k) =>
        var entries := Entries(s[3..k]);
        Header(if entries == [] then Default else entries, s[k + 2..])
    else if |s| >= 4 && s[..2] == "//" && s[3] == '\n' then
      Header([[s[2]]], s[4..])
    else
      Header(Default, s)
  }

  /** A well-formed single-character header declares exactly that character. */
  lemma SingleCharHeader(c: char, body: string)
    requires c != '['
    ensures ExtractDelimiters("//" + [c] + "\n" + body) == Header([[c]], body)
  {
    var s := "//" + [c] + "\n" + body;
    assert s[..2] == "//" && s[2] == c && s[3] == '\n' && s[4..] == body;
  }

  /**
   * An input that starts like a header but is not a well-formed one has no
   * header: the whole input is the body and the defaults apply.
   */
  lemma MalformedHeader(s: string)
    requires |s| >= 2 && s[..2] == "//"
    requires if |s| >= 3 && s[2] == '[' then forall k :: 3 <= k ==> !ClosesAt(s, k)
             else |s| < 4 || s[3] != '\n'
    ensures ExtractDelimiters(s) == Header(Default, s)
  {
    if |s| >= 3 {
      assert s[..3] == "//[" <==> s[2] == '[';
    }
  }

  /** A two-character separator `][` starts at the front of `u` exactly when its two characters do. */
  lemma EntrySeparatorMatch(u: string)
    ensures MatchLength(u, [EntrySeparator]) == (if |u| >= 2 && u[0] == ']' && u[1] == '[' then 2 else 0)
  {
    if |u| >= 2 && u[0] == ']' && u[1] == '[' {
      assert u[..2] == EntrySeparator;
    }
  }

  /** Splitting the `][`-join of entries that hold no `][` gives back the entries. */
  lemma {:induction false} EntriesOfJoin(ds: seq<string>)
    requires |ds| > 0
    requires forall i :: 0 <= i < |ds| ==> !HasPair(ds[i], ']', '[')
    ensures Tokens(JoinWith(ds, EntrySeparator), [EntrySeparator]) == ds
    decreases |ds|
  {
    var d0 := ds[0];
    var rest: string := if |ds| == 1 then "" else EntrySeparator + JoinWith(ds[1..], EntrySeparator);
    assert JoinWith(ds, EntrySeparator) == d0 + rest;
    forall p | 0 <= p < |d0| ensures MatchLength((d0 + rest)[p..], [EntrySeparator]) == 0 {
      EntrySeparatorMatch((d0 + rest)[p..]);
      if p + 1 < |d0| {
        assert !(d0[p] == ']' && d0[p + 1] == '[');
      } else if |ds| > 1 {
        assert (d0 + rest)[p + 1] == ']';
      }
    }
    TokensAfterPlain(d0, rest, [EntrySeparator]);
    if |ds| == 1 {
      assert Tokens(rest, [EntrySeparator]) == [""];
      assert ds == [d0];
    } else {
      var j' := JoinWith(ds[1..], EntrySeparator);
      EntrySeparatorMatch(EntrySeparator + j');
      TokensAfterDelimiter(EntrySeparator, j', [EntrySeparator]);
      EntriesOfJoin(ds[1..]);
      var tr := Tokens(rest, [EntrySeparator]);
      assert tr == [""] + ds[1..];
      assert tr[0] == "" && tr[1..] == ds[1..];
      assert d0 + "" == d0;
      assert ds == [d0] + ds[1..];
    }
  }

  /** The `][`-join of entries that hold no `]` followed by a newline holds none either. */
  lemma {:induction false} JoinAvoidsClose(ds: seq<string>)
    requires |ds| > 0
    requires forall i :: 0 <= i < |ds| ==> !HasPair(ds[i], ']', '\n')
    ensures !HasPair(JoinWith(ds, EntrySeparator), ']', '\n')
    decreases |ds|
  {
    if |ds| > 1 {
      var d0, j' := ds[0], JoinWith(ds[1..], EntrySeparator);
      var j := JoinWith(ds, EntrySeparator);
      assert j == d0 + EntrySeparator + j';
      JoinAvoidsClose(ds[1..]);
      forall i | 0 <= i && i + 1 < |j| ensures !(j[i] == ']' && j[i + 1] == '\n') {
        if i + 1 < |d0| {
          assert j[i] == d0[i] && j[i + 1] == d0[i + 1];
        } else if i + 1 == |d0| {
          assert j[i + 1] == ']';
        } else if i == |d0| {
          assert j[i + 1] == '[';
        } else if i == |d0| + 1 {
          assert j[i] == '[';
        } else {
          var m := i - |d0| - 2;
          assert j[i] == j'[m] && j[i + 1] == j'[m + 1];
        }
      }
    }
  }

  /** Empty entries contribute nothing; non-empty ones are kept in order. */
  lemma {:induction false} NonEmptyKeepsNonEmpty(ds: seq<string>)
    requires forall i :: 0 <= i < |ds| ==> ds[i] != ""
    ensures NonEmpty(ds) == ds
    decreases |ds|
  {
    if ds != [] {
      NonEmptyKeepsNonEmpty(ds[1..]);
      assert ds == [ds[0]] + ds[1..];
    }
  }

  /** Entries that are all empty contribute nothing. */
  lemma {:induction false} NonEmptyDropsEmpty(ps: seq<string>)
    requires forall i :: 0 <= i < |ps| ==> ps[i] == ""
    ensures NonEmpty(ps) == []
    decreases |ps|
  {
    if ps != [] {
      NonEmptyDropsEmpty(ps[1..]);
    }
  }

  /**
   * Filtering commutes with concatenation, so together with the two lemmas
   * above it fixes order and multiplicity: each non-empty entry is kept once,
   * where it stood.
   */
  lemma {:induction false} NonEmptyAppend(a: seq<string>, b: seq<string>)
    ensures NonEmpty(a + b) == NonEmpty(a) + NonEmpty(b)
    decreases |a|
  {
    if a == [] {
      assert a + b == b;
    } else {
      assert (a + b)[0] == a[0];
      assert (a + b)[1..] == a[1..] + b;
      NonEmptyAppend(a[1..], b);
    }
  }

  /**
   * A bracketed header declares its non-empty entries, in order, as the
   * delimiters; if all entries are empty the defaults apply.  The header is
   * stripped from the body either way.
   */
  lemma BracketHeader(ds: seq<string>, body: string)
    requires |ds| > 0
    requires forall i :: 0 <= i < |ds| ==> !HasPair(ds[i], ']', '[') && !HasPair(ds[i], ']', '\n')
    ensures ExtractDelimiters("//[" + JoinWith(ds, EntrySeparator) + "]\n" + body)
         == Header(if NonEmpty(ds) == [] then Default else NonEmpty(ds), body)
  {
    var j := JoinWith(ds, EntrySeparator);
    var s := "//[" + j + "]\n" + body;
    JoinAvoidsClose(ds);
    BracketHeaderCloses(j, body);
    HeaderParts(j, body);
    ExtractBracketed(s, 3 + |j|);
    EntriesOfJoin(ds);
    assert Entries(j) == NonEmpty(ds);
  }

  /** The pieces of a bracketed header, read back by index. */
  lemma HeaderParts(j: string, body: string)
    ensures var s := "//[" + j + "]\n" + body;
      |s| >= 3 + |j| + 2 && s[..3] == "//[" && s[3..3 + |j|] == j && s[3 + |j| + 2..] == body
  {
  }

  /** Once its closing index is known, a bracketed header yields its entries and the rest of the input. */
  lemma ExtractBracketed(s: string, k: nat)
    requires |s| >= 3 && s[..3] == "//[" && FindClose(s, 3) == Some(k)
    ensures ExtractDelimiters(s) == Header(if Entries(s[3..k]) == [] then Default else Entries(s[3..k]), s[k + 2..])
  {
  }

  /** The header `//[` + `j` + `]` and newline closes right after `j` when `j` holds no closing pair. */
  lemma BracketHeaderCloses(j: string, body: string)
    requires !HasPair(j, ']', '\n')
    ensures FindClose("//[" + j + "]\n" + body, 3) == Some(3 + |j|)
  {
    var s := "//[" + j + "]\n" + body;
    var k := 3 + |j|;
    assert s[k] == ']' && s[k + 1] == '\n';
    forall i | 3 <= i < k ensures !ClosesAt(s, i) {
      if i + 1 < k {
        assert s[i] == j[i - 3] && s[i + 1] == j[i - 2];
      } else {
        assert s[i + 1] == ']';
      }
    }
    FindCloseFirst(s, 3, k);
  }

  /** `FindClose` finds the first closing index, and only it. */
  lemma FindCloseFirst(s: string, from: nat, k: nat)
    requires from <= k && ClosesAt(s, k)
    requires forall j :: from <= j < k ==> !ClosesAt(s, j)
    ensures FindClose(s, from) == Some(k)
  {
  }

  /** A bracketed header whose entries are all non-empty declares exactly those entries. */
  lemma BracketHeaderNonEmpty(ds: seq<string>, body: string)
    requires |ds| > 0
    requires forall i :: 0 <= i < |ds| ==> ds[i] != "" && !HasPair(ds[i], ']', '[') && !HasPair(ds[i], ']', '\n')
    ensures ExtractDelimiters("//[" + JoinWith(ds, EntrySeparator) + "]\n" + body) == Header(ds, body)
  {
    BracketHeader(ds, body);
    NonEmptyKeepsNonEmpty(ds);
    assert ds[0] in ds;
  }
}
