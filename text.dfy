/** The Python string built-ins the core relies on: `str.split()` with no
    argument, `' '.join`, `str.strip` and `zip`, on strings as `seq<char>`. */
module Text {

  function Min(a: int, b: int): int { if a <= b then a else b }

  /** The characters Python's `str.isspace` accepts, which are the separators
      of `str.split()` and what `str.strip()` removes. */
  predicate IsSpace(c: char) {
    || ('\t' <= c <= '\r')                   // tab, line feed, vertical tab, form feed, carriage return
    || ('\U{1C}' <= c <= '\U{1F}')           // file, group, record and unit separators
    || c == ' '
    || c == '\U{85}'                         // next line
    || c == '\U{A0}'                         // no-break space
    || c == '\U{1680}'
    || ('\U{2000}' <= c <= '\U{200A}')
    || c == '\U{2028}' || c == '\U{2029}'
    || c == '\U{202F}' || c == '\U{205F}'
    || c == '\U{3000}'                       // ideographic space
  }

  /** A token: a nonempty string without whitespace, which is what `str.split()` yields. */
  predicate IsToken(w: string) {
    |w| > 0 && forall i :: 0 <= i < |w| ==> !IsSpace(w[i])
  }

  predicate AllTokens(ws: seq<string>) {
    forall i :: 0 <= i < |ws| ==> IsToken(ws[i])
  }

  /** Length of the longest whitespace-free prefix of `s`. */
  function TokenEnd(s: string): (n: nat)
    ensures n <= |s|
    ensures forall i :: 0 <= i < n ==> !IsSpace(s[i])
    ensures n < |s| ==> IsSpace(s[n])
  {
    if s == [] || IsSpace(s[0]) then 0 else 1 + TokenEnd(s[1..])
  }

  /** `s.split()`: the maximal whitespace-free runs of `s`, in order. */
  function Split(s: string): seq<string>
    decreases |s|
  {
    if s == [] then []
    else if IsSpace(s[0]) then Split(s[1..])
    else
      var n := TokenEnd(s);
      [s[..n]] + Split(s[n..])
  }

  /** Every part of a split is a token. */
  lemma {:induction false} SplitTokens(s: string)
    ensures AllTokens(Split(s))
    decreases |s|
  {
    if s != [] {
      if IsSpace(s[0]) {
        SplitTokens(s[1..]);
      } else {
        var n := TokenEnd(s);
        SplitTokens(s[n..]);
        assert IsToken(s[..n]);
      }
    }
  }

  /** `' '.join(ws)`. */
  function Join(ws: seq<string>): string {
    if |ws| == 0 then ""
    else if |ws| == 1 then ws[0]
    else ws[0] + " " + Join(ws[1..])
  }

  /** `zip(xs, ys)`: pairs positions up to the end of the shorter sequence. */
  function Zip<X, Y>(xs: seq<X>, ys: seq<Y>): (zs: seq<(X, Y)>)
    ensures |zs| == Min(|xs|, |ys|)
    ensures forall j :: 0 <= j < |zs| ==> zs[j] == (xs[j], ys[j])
  {
    if xs == [] || ys == [] then [] else [(xs[0], ys[0])] + Zip(xs[1..], ys[1..])
  }

  /** Every character of `s` at an index in `[lo, hi)` is a `drop` character. */
  predicate Dropped(s: string, lo: int, hi: int, drop: char -> bool) {
    forall i :: lo <= i < hi && 0 <= i < |s| ==> drop(s[i])
  }

  /** How many characters `s.lstrip(chars)` removes: the length of the
      leading run of `drop` characters. */
  function LeadingRun(s: string, drop: char -> bool): (n: nat)
    ensures n <= |s| && Dropped(s, 0, n, drop)
    ensures n < |s| ==> !drop(s[n])
  {
    if s == [] || !drop(s[0]) then 0 else 1 + LeadingRun(s[1..], drop)
  }

  /** How many characters `s.rstrip(chars)` removes: the length of the
      trailing run of `drop` characters. */
  function TrailingRun(s: string, drop: char -> bool): (n: nat)
    ensures n <= |s| && Dropped(s, |s| - n, |s|, drop)
    ensures n < |s| ==> !drop(s[|s| - n - 1])
  {
    if s == [] || !drop(s[|s| - 1]) then 0 else 1 + TrailingRun(s[..|s| - 1], drop)
  }

  /** `s.strip(chars)`: `s` without its leading run of `drop` characters and
      without the trailing run of what is left. The result is the slice of
      `s` between two runs of `drop` characters, and it neither starts nor
      ends with one. */
  function Strip(s: string, drop: char -> bool): (r: string)
    ensures var lo := LeadingRun(s, drop);
      && lo + |r| <= |s| && r == s[lo..lo + |r|]
      && Dropped(s, 0, lo, drop) && Dropped(s, lo + |r|, |s|, drop)
    ensures r == [] || (!drop(r[0]) && !drop(r[|r| - 1]))
  {
    var lo := LeadingRun(s, drop);
    var t := s[lo..];
    var n := TrailingRun(t, drop);
    assert Dropped(s, |s| - n, |s|, drop) by {
      forall i | |s| - n <= i < |s| ensures drop(s[i]) {
        assert s[i] == t[i - lo];
      }
    }
    s[lo..|s| - n]
  }

  /** A string that neither starts nor ends with a `drop` character is its own strip. */
  lemma StripKeeps(s: string, drop: char -> bool)
    requires s == [] || (!drop(s[0]) && !drop(s[|s| - 1]))
    ensures Strip(s, drop) == s
  {
    assert LeadingRun(s, drop) == 0;
    assert TrailingRun(s, drop) == 0;
    assert s[0..|s|] == s;
  }

  /** A token followed by nothing or by whitespace ends exactly where the token ends. */
  lemma {:induction false} TokenEndOfToken(t: string, rest: string)
    requires forall i :: 0 <= i < |t| ==> !IsSpace(t[i])
    requires rest == [] || IsSpace(rest[0])
    ensures TokenEnd(t + rest) == |t|
  {
    if t != [] {
      assert (t + rest)[1..] == t[1..] + rest;
      TokenEndOfToken(t[1..], rest);
    }
  }

  /** A leading token followed by nothing or by whitespace is the first part. */
  lemma SplitToken(w: string, rest: string)
    requires IsToken(w)
    requires rest == [] || IsSpace(rest[0])
    ensures Split(w + rest) == [w] + Split(rest)
  {
    var s := w + rest;
    TokenEndOfToken(w, rest);
    assert s[..|w|] == w;
    assert s[|w|..] == rest;
  }

  /** Leading whitespace is skipped. */
  lemma SplitSpace(c: char, rest: string)
    requires IsSpace(c)
    ensures Split([c] + rest) == Split(rest)
  {
    assert ([c] + rest)[1..] == rest;
  }

  /** Splitting a single-space join of tokens gives the tokens back. */
  lemma {:induction false} SplitJoin(ws: seq<string>)
    requires AllTokens(ws)
    ensures Split(Join(ws)) == ws
  {
    if |ws| == 1 {
      SplitToken(ws[0], []);
      assert ws[0] + [] == ws[0];
    } else if |ws| > 1 {
      var rest := Join(ws[1..]);
      assert Join(ws) == ws[0] + ([' '] + rest);
      SplitToken(ws[0], [' '] + rest);
      SplitSpace(' ', rest);
      SplitJoin(ws[1..]);
      assert ws == [ws[0]] + ws[1..];
    }
  }

  /** The characters of `s` that are not whitespace, in order. */
  function NonSpace(s: string): (r: string)
    ensures |r| <= |s|
    ensures forall i :: 0 <= i < |r| ==> !IsSpace(r[i])
  {
    if s == [] then [] else (if IsSpace(s[0]) then [] else [s[0]]) + NonSpace(s[1..])
  }

  /** The words of a list, concatenated. */
  function Concat(ws: seq<string>): string {
    if ws == [] then [] else ws[0] + Concat(ws[1..])
  }

  lemma {:induction false} NonSpaceAppend(a: string, b: string)
    ensures NonSpace(a + b) == NonSpace(a) + NonSpace(b)
  {
    if a == [] {
      assert a + b == b;
    } else {
      assert (a + b)[0] == a[0];
      assert (a + b)[1..] == a[1..] + b;
      NonSpaceAppend(a[1..], b);
      var h := if IsSpace(a[0]) then [] else [a[0]];
      assert h + (NonSpace(a[1..]) + NonSpace(b)) == (h + NonSpace(a[1..])) + NonSpace(b);
    }
  }

  lemma {:induction false} NonSpaceOfWord(w: string)
    requires forall i :: 0 <= i < |w| ==> !IsSpace(w[i])
    ensures NonSpace(w) == w
  {
    if w != [] {
      NonSpaceOfWord(w[1..]);
      assert w == [w[0]] + w[1..];
    }
  }

  /** `str.split()` loses only whitespace: its words, concatenated, are the
      non-whitespace characters of the text in their original order. */
  lemma {:induction false} SplitKeepsCharacters(s: string)
    ensures Concat(Split(s)) == NonSpace(s)
    decreases |s|
  {
    if s != [] {
      if IsSpace(s[0]) {
        SplitKeepsCharacters(s[1..]);
      } else {
        var n := TokenEnd(s);
        var w, rest := s[..n], s[n..];
        assert s == w + rest;
        NonSpaceAppend(w, rest);
        NonSpaceOfWord(w);
        SplitKeepsCharacters(rest);
        var ws := Split(s);
        assert ws == [w] + Split(rest);
        assert ws[1..] == Split(rest);
      }
    }
  }
}
