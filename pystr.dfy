/**
 * The Python `str` operations the linear-scan converter relies on:
 * `readlines()` on a text stream, `startswith`, `replace(c, "")` and the
 * argument-less `split()`, which splits on runs of whitespace and never
 * yields an empty token.
 */
module PyStr {
  import opened Select

  /**
   * Python's `str.isspace` for one code point: the characters with
   * bidirectional class WS, B or S, or general category Zs.
   */
  predicate IsSpace(c: char) {
    || ('\t' <= c <= '\r')
    || ('\U{1C}' <= c <= ' ')
    || c == '\U{85}' || c == '\U{A0}' || c == '\U{1680}'
    || ('\U{2000}' <= c <= '\U{200A}')
    || c == '\U{2028}' || c == '\U{2029}' || c == '\U{202F}' || c == '\U{205F}'
    || c == '\U{3000}'
  }

  predicate AllSpace(s: string) {
    forall k :: 0 <= k < |s| ==> IsSpace(s[k])
  }

  /** A piece of `split()` output: non-empty and free of whitespace. */
  predicate IsToken(t: string) {
    |t| > 0 && forall k :: 0 <= k < |t| ==> !IsSpace(t[k])
  }

  /** `s.startswith(prefix)` */
  predicate StartsWith(s: string, prefix: string) {
    prefix <= s
  }

  /** `s.replace(c, "")` for a one-character pattern `c` */
  function RemoveAll(s: string, c: char): (r: string)
    ensures c !in r
    ensures c !in s ==> r == s
  {
    var r := Filter(s, x => x != c);
    if c !in s then
      FilterKeepsAll(s, x => x != c);
      r
    else r
  }

  /** `replace` works character by character: a whole string is the pieces of its parts, ... */
  lemma RemoveAllConcat(a: string, b: string, c: char)
    ensures RemoveAll(a + b, c) == RemoveAll(a, c) + RemoveAll(b, c)
  {
    FilterConcat(a, b, x => x != c);
  }

  /** ... and each character is dropped if it is `c` and kept otherwise. */
  lemma RemoveAllChar(x: char, c: char)
    ensures RemoveAll([x], c) == if x == c then [] else [x]
  {
    assert [x][1..] == [];
  }

  /** Length of the leading run of non-whitespace characters of `s`. */
  function TokenLength(s: string): (n: nat)
    ensures n <= |s|
    ensures forall k :: 0 <= k < n ==> !IsSpace(s[k])
    ensures n < |s| ==> IsSpace(s[n])
  {
    if s == [] || IsSpace(s[0]) then 0 else 1 + TokenLength(s[1..])
  }

  /** The three facts in TokenLength's contract determine it. */
  lemma TokenLengthUnique(s: string, n: nat)
    requires n <= |s|
    requires forall k :: 0 <= k < n ==> !IsSpace(s[k])
    requires n < |s| ==> IsSpace(s[n])
    ensures TokenLength(s) == n
  {
  }

  /** `s.split()` with no separator argument. */
  function Split(s: string): (r: seq<string>)
    ensures forall i :: 0 <= i < |r| ==> IsToken(r[i])
    decreases |s|
  {
    if s == [] then []
    else if IsSpace(s[0]) then Split(s[1..])
    else
      var n := TokenLength(s);
      [s[..n]] + Split(s[n..])
  }

  /** Leading whitespace is ignored. */
  lemma {:induction false} SplitSkipsSpace(w: string, b: string)
    requires AllSpace(w)
    ensures Split(w + b) == Split(b)
    decreases |w|
  {
    if w == [] {
      assert w + b == b;
    } else {
      assert (w + b)[0] == w[0];
      assert IsSpace(w[0]);
      assert Split(w + b) == Split((w + b)[1..]);
      assert (w + b)[1..] == w[1..] + b;
      assert forall k :: 0 <= k < |w[1..]| ==> w[1..][k] == w[k + 1];
      SplitSkipsSpace(w[1..], b);
    }
  }

  /**
   * A non-empty run of whitespace separates tokens: whatever stands on
   * either side of it is split independently.
   */
  lemma {:induction false} SplitConcat(a: string, w: string, b: string)
    requires |w| > 0 && AllSpace(w)
    ensures Split(a + w + b) == Split(a) + Split(b)
    decreases |a|
  {
    var s := a + w + b;
    if a == [] {
      assert s == w + b;
      SplitSkipsSpace(w, b);
    } else if IsSpace(a[0]) {
      assert s[0] == a[0];
      assert s[1..] == a[1..] + w + b;
      SplitConcat(a[1..], w, b);
    } else {
      var n := TokenLength(a);
      assert s[0] == a[0];
      forall k | 0 <= k < n ensures !IsSpace(s[k]) {
        assert s[k] == a[k];
      }
      assert IsSpace(s[n]) by {
        if n < |a| { assert s[n] == a[n]; } else { assert s[n] == w[0]; }
      }
      TokenLengthUnique(s, n);
      assert s[..n] == a[..n];
      assert s[n..] == a[n..] + w + b;
      SplitConcat(a[n..], w, b);
    }
  }

  /** Trailing whitespace is ignored. */
  lemma SplitIgnoresTrailingSpace(a: string, w: string)
    requires |w| > 0 && AllSpace(w)
    ensures Split(a + w) == Split(a)
  {
    SplitConcat(a, w, "");
    assert a + w + "" == a + w;
  }

  /** A string yields no tokens exactly when it is all whitespace. */
  lemma {:induction false} SplitEmptyIffAllSpace(s: string)
    ensures Split(s) == [] <==> AllSpace(s)
    decreases |s|
  {
    if s != [] {
      if IsSpace(s[0]) {
        SplitEmptyIffAllSpace(s[1..]);
        if AllSpace(s[1..]) {
          forall k | 0 <= k < |s| ensures IsSpace(s[k]) {
            if k > 0 { assert s[k] == s[1..][k - 1]; }
          }
        } else {
          var k :| 0 <= k < |s[1..]| && !IsSpace(s[1..][k]);
          assert s[k + 1] == s[1..][k];
        }
      }
    }
  }

  /** A single token splits to itself. */
  lemma SplitToken(t: string)
    requires IsToken(t)
    ensures Split(t) == [t]
  {
    TokenLengthUnique(t, |t|);
    assert t[..|t|] == t;
    assert t[|t|..] == [];
  }

  /** `" ".join(tokens)` */
  function Join(tokens: seq<string>): string {
    if |tokens| == 0 then ""
    else if |tokens| == 1 then tokens[0]
    else tokens[0] + " " + Join(tokens[1..])
  }

  /** Splitting undoes joining with single spaces. */
  lemma {:induction false} SplitJoin(tokens: seq<string>)
    requires forall i :: 0 <= i < |tokens| ==> IsToken(tokens[i])
    ensures Split(Join(tokens)) == tokens
  {
    if |tokens| == 1 {
      SplitToken(tokens[0]);
    } else if |tokens| > 1 {
      var rest := tokens[1..];
      assert forall i :: 0 <= i < |rest| ==> rest[i] == tokens[i + 1];
      SplitJoin(rest);
      SplitConcat(tokens[0], " ", Join(rest));
      SplitToken(tokens[0]);
      assert tokens == [tokens[0]] + rest;
    }
  }

  /** The concatenation of a sequence of strings. */
  function Concat(parts: seq<string>): string {
    if parts == [] then "" else parts[0] + Concat(parts[1..])
  }

  /** A line as `readlines()` returns it: a newline can only be its last character. */
  predicate IsReadLine(line: string) {
    forall k :: 0 <= k < |line| - 1 ==> line[k] != '\n'
  }

  /** Position just past the first newline of `text`, or `|text|` if there is none. */
  function LineEnd(text: string): (n: nat)
    ensures n <= |text|
    ensures text != [] ==> n > 0
    ensures forall k :: 0 <= k < n - 1 ==> text[k] != '\n'
    ensures 0 < n < |text| ==> text[n - 1] == '\n'
  {
    if text == [] then 0
    else if text[0] == '\n' then 1
    else 1 + LineEnd(text[1..])
  }

  /**
   * `readlines()` on a stream whose content is `text`: each line keeps its
   * terminating newline, and only the last line may lack one.
   */
  function ReadLines(text: string): (lines: seq<string>)
    ensures Concat(lines) == text
    ensures forall i :: 0 <= i < |lines| ==> lines[i] != [] && IsReadLine(lines[i])
    ensures forall i :: 0 <= i < |lines| - 1 ==> lines[i][|lines[i]| - 1] == '\n'
    decreases |text|
  {
    if text == [] then []
    else
      var n := LineEnd(text);
      var rest := ReadLines(text[n..]);
      assert text[..n] + text[n..] == text;
      assert forall i :: 1 <= i < 1 + |rest| ==> ([text[..n]] + rest)[i] == rest[i - 1];
      [text[..n]] + rest
  }
}
