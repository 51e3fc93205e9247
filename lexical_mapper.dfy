/** The lexical restoration mapper of word_preprocessing.py: a word mapping
    built from aligned (obfuscated, original) training pairs, and the
    substitution that applies it to a text token by token. */
module LexicalMapper {
  import opened Text

  /** A training pair: (obfuscated text, original text). */
  type Pair = (string, string)

  /** The token lists of a pair: (obfuscated tokens, original tokens). */
  type TokenPair = (seq<string>, seq<string>)

  /** An entry written into the mapping: (obfuscated token, original token). */
  type Entry = (string, string)

  /** `input_text.split()` and `output_text.split()` of every pair, in order. */
  function SplitPairs(pairs: seq<Pair>): (tps: seq<TokenPair>)
    ensures |tps| == |pairs|
  {
    seq(|pairs|, i requires 0 <= i < |pairs| => (Split(pairs[i].0), Split(pairs[i].1)))
  }

  /** Every entry the builder writes, in the order it writes them: the two
      token lists of each pair zipped. */
  function Entries(tps: seq<TokenPair>): seq<Entry> {
    if tps == [] then []
    else Entries(tps[..|tps| - 1]) + Zip(tps[|tps| - 1].0, tps[|tps| - 1].1)
  }

  /** The map left by writing `es` in order into an empty dictionary. */
  function LastWins(es: seq<Entry>): map<string, string> {
    if es == [] then map[]
    else LastWins(es[..|es| - 1])[es[|es| - 1].0 := es[|es| - 1].1]
  }

  /** The map built from token pairs. */
  function Build(tps: seq<TokenPair>): map<string, string> {
    LastWins(Entries(tps))
  }

  /** The word mapping built from `pairs`. */
  function Mapping(pairs: seq<Pair>): map<string, string> {
    Build(SplitPairs(pairs))
  }

  /** Position `j` of token pair `p` is aligned (below both token counts) and
      its obfuscated token is `k`. */
  predicate WritesKey(tps: seq<TokenPair>, p: int, j: int, k: string) {
    0 <= p < |tps| && 0 <= j < |tps[p].0| && j < |tps[p].1| && tps[p].0[j] == k
  }

  lemma LastWinsSnoc(es: seq<Entry>, e: Entry)
    ensures LastWins(es + [e]) == LastWins(es)[e.0 := e.1]
  {
    assert (es + [e])[..|es|] == es;
  }

  /** The entries of the first `i + 1` pairs: those of the first `i`, then
      the zipped tokens of pair `i`. */
  lemma EntriesSnoc(pairs: seq<Pair>, i: int)
    requires 0 <= i < |pairs|
    ensures Entries(SplitPairs(pairs)[..i + 1])
      == Entries(SplitPairs(pairs)[..i]) + Zip(Split(pairs[i].0), Split(pairs[i].1))
  {
    var tps := SplitPairs(pairs);
    assert tps[..i + 1][..i] == tps[..i];
    assert tps[..i + 1][i] == (Split(pairs[i].0), Split(pairs[i].1));
  }

  lemma WriteStep(m0: map<string, string>, zipped: seq<Entry>, j: int)
    requires 0 <= j < |zipped|
    ensures m0 + LastWins(zipped[..j + 1])
      == (m0 + LastWins(zipped[..j]))[zipped[j].0 := zipped[j].1]
  {
    assert zipped[..j + 1] == zipped[..j] + [zipped[j]];
    LastWinsSnoc(zipped[..j], zipped[j]);
    var l := LastWins(zipped[..j]);
    assert m0 + l[zipped[j].0 := zipped[j].1] == (m0 + l)[zipped[j].0 := zipped[j].1];
  }

  /** The inner loop of the builder: `for iw, ow in zip(input_words,
      output_words): match_dict[iw] = ow`, on the map built so far. */
  method WritePair(m0: map<string, string>, inputWords: seq<string>, outputWords: seq<string>)
    returns (m: map<string, string>)
    ensures m == m0 + LastWins(Zip(inputWords, outputWords))
  {
    ghost var zipped := Zip(inputWords, outputWords);
    m := m0;
    var j := 0;
    while j < |inputWords| && j < |outputWords|
      invariant 0 <= j <= |inputWords| && j <= |outputWords|
      invariant m == m0 + LastWins(zipped[..j])
    {
      WriteStep(m0, zipped, j);
      m := m[inputWords[j] := outputWords[j]];
      j := j + 1;
    }
    assert zipped[..j] == zipped;
  }

  /** The mapping-construction loop: for each pair, split both texts and
      write their zipped tokens into the map. */
  method BuildMapping(pairs: seq<Pair>) returns (m: map<string, string>)
    ensures m == Mapping(pairs)
  {
    m := map[];
    var i := 0;
    while i < |pairs|
      invariant 0 <= i <= |pairs|
      invariant m == LastWins(Entries(SplitPairs(pairs)[..i]))
    {
      var inputWords := Split(pairs[i].0);
      var outputWords := Split(pairs[i].1);
      m := WritePair(m, inputWords, outputWords);
      EntriesSnoc(pairs, i);
      LastWinsAppend(Entries(SplitPairs(pairs)[..i]), Zip(inputWords, outputWords));
      i := i + 1;
    }
    assert SplitPairs(pairs)[..|pairs|] == SplitPairs(pairs);
  }

  /** Writing two batches in order: the later batch overrides the earlier one. */
  lemma {:induction false} LastWinsAppend(a: seq<Entry>, b: seq<Entry>)
    ensures LastWins(a + b) == LastWins(a) + LastWins(b)
  {
    if b == [] {
      assert a + b == a;
    } else {
      var b' := b[..|b| - 1];
      var e := b[|b| - 1];
      assert a + b == (a + b') + [e];
      assert b == b' + [e];
      LastWinsSnoc(a + b', e);
      LastWinsSnoc(b', e);
      LastWinsAppend(a, b');
    }
  }

  /** A token is a key exactly when some entry writes it. */
  lemma {:induction false} LastWinsKeys(es: seq<Entry>, k: string)
    ensures k in LastWins(es) <==> exists i :: 0 <= i < |es| && es[i].0 == k
  {
    if es != [] {
      var es' := es[..|es| - 1];
      LastWinsKeys(es', k);
      if k in LastWins(es') {
        var i :| 0 <= i < |es'| && es'[i].0 == k;
        assert es[i].0 == k;
      }
      if exists i :: 0 <= i < |es| && es[i].0 == k {
        var i :| 0 <= i < |es| && es[i].0 == k;
        if i < |es'| { assert es'[i].0 == k; }
      }
    }
  }

  /** The value stored for a key is the one written by its last entry. */
  lemma {:induction false} LastWinsLast(es: seq<Entry>, i: int)
    requires 0 <= i < |es|
    requires forall j :: i < j < |es| ==> es[j].0 != es[i].0
    ensures es[i].0 in LastWins(es) && LastWins(es)[es[i].0] == es[i].1
  {
    if i < |es| - 1 {
      var es' := es[..|es| - 1];
      LastWinsLast(es', i);
    }
  }

  /** Every value stored for a key was written by some entry for that key. */
  lemma {:induction false} LastWinsProvenance(es: seq<Entry>, k: string)
    requires k in LastWins(es)
    ensures exists i :: 0 <= i < |es| && es[i] == (k, LastWins(es)[k])
  {
    var last := es[|es| - 1];
    if last.0 != k {
      var es' := es[..|es| - 1];
      LastWinsProvenance(es', k);
      var i :| 0 <= i < |es'| && es'[i] == (k, LastWins(es')[k]);
      assert es[i] == es'[i];
    }
  }

  /** Building from no training pairs gives the empty mapping. */
  lemma MappingEmpty()
    ensures Mapping([]) == map[]
  {
  }

  /** The last pair's entries override those of the pairs before it. */
  lemma BuildSnoc(tps: seq<TokenPair>)
    requires tps != []
    ensures Build(tps)
      == Build(tps[..|tps| - 1]) + LastWins(Zip(tps[|tps| - 1].0, tps[|tps| - 1].1))
  {
    LastWinsAppend(Entries(tps[..|tps| - 1]), Zip(tps[|tps| - 1].0, tps[|tps| - 1].1));
  }

  /** Every key of the mapping is written at an aligned position of some pair. */
  lemma {:induction false} BuildKeysWritten(tps: seq<TokenPair>, k: string)
    requires k in Build(tps)
    ensures exists p, j :: WritesKey(tps, p, j, k)
  {
    var init := tps[..|tps| - 1];
    var last := tps[|tps| - 1];
    var zl := Zip(last.0, last.1);
    BuildSnoc(tps);
    if k in LastWins(zl) {
      LastWinsKeys(zl, k);
      var j :| 0 <= j < |zl| && zl[j].0 == k;
      assert WritesKey(tps, |tps| - 1, j, k);
    } else {
      BuildKeysWritten(init, k);
      var p, j :| WritesKey(init, p, j, k);
      assert WritesKey(tps, p, j, k);
    }
  }

  /** Every obfuscated token at an aligned position becomes a key. */
  lemma {:induction false} BuildKeysComplete(tps: seq<TokenPair>, p: int, j: int, k: string)
    requires WritesKey(tps, p, j, k)
    ensures k in Build(tps)
  {
    var init := tps[..|tps| - 1];
    var last := tps[|tps| - 1];
    var zl := Zip(last.0, last.1);
    BuildSnoc(tps);
    if p < |init| {
      assert WritesKey(init, p, j, k);
      BuildKeysComplete(init, p, j, k);
    } else {
      assert zl[j].0 == k;
      LastWinsKeys(zl, k);
    }
  }

  /** Only aligned positions contribute: a token is a key exactly when it is
      the obfuscated token at some position below both token counts of some
      pair; tokens past that point on either side are ignored. */
  lemma BuildKeys(tps: seq<TokenPair>, k: string)
    ensures k in Build(tps) <==> exists p, j :: WritesKey(tps, p, j, k)
  {
    if k in Build(tps) {
      BuildKeysWritten(tps, k);
    }
    if exists p, j :: WritesKey(tps, p, j, k) {
      var p, j :| WritesKey(tps, p, j, k);
      BuildKeysComplete(tps, p, j, k);
    }
  }

  /** Every value of the mapping is the original token aligned with its key in some pair. */
  lemma {:induction false} BuildProvenance(tps: seq<TokenPair>, k: string)
    requires k in Build(tps)
    ensures exists p, j :: WritesKey(tps, p, j, k) && tps[p].1[j] == Build(tps)[k]
  {
    var init := tps[..|tps| - 1];
    var last := tps[|tps| - 1];
    var zl := Zip(last.0, last.1);
    BuildSnoc(tps);
    if k in LastWins(zl) {
      LastWinsProvenance(zl, k);
      var j :| 0 <= j < |zl| && zl[j] == (k, LastWins(zl)[k]);
      assert WritesKey(tps, |tps| - 1, j, k);
    } else {
      BuildProvenance(init, k);
      var p, j :| WritesKey(init, p, j, k) && init[p].1[j] == Build(init)[k];
      assert WritesKey(tps, p, j, k);
    }
  }

  /** Last write wins: when position `j` of pair `p` is the last aligned
      position, in iteration order, whose obfuscated token is `k`, the mapping
      sends `k` to the original token at that position. */
  lemma {:induction false} BuildLastWriteWins(tps: seq<TokenPair>, p: int, j: int, k: string)
    requires WritesKey(tps, p, j, k)
    requires forall j' :: j < j' ==> !WritesKey(tps, p, j', k)
    requires forall p', j' :: p < p' ==> !WritesKey(tps, p', j', k)
    ensures k in Build(tps) && Build(tps)[k] == tps[p].1[j]
  {
    var init := tps[..|tps| - 1];
    var last := tps[|tps| - 1];
    var zl := Zip(last.0, last.1);
    BuildSnoc(tps);
    if p == |tps| - 1 {
      forall j' | j < j' < |zl| ensures zl[j'].0 != zl[j].0 {
        assert !WritesKey(tps, p, j', k);
      }
      LastWinsLast(zl, j);
    } else {
      LastWinsKeys(zl, k);
      if k in LastWins(zl) {
        var j' :| 0 <= j' < |zl| && zl[j'].0 == k;
        assert WritesKey(tps, |tps| - 1, j', k);
        assert false;
      }
      forall p', j' | p < p' ensures !WritesKey(init, p', j', k) {
        assert !WritesKey(tps, p', j', k);
      }
      forall j' | j < j' ensures !WritesKey(init, p, j', k) {
        assert !WritesKey(tps, p, j', k);
      }
      BuildLastWriteWins(init, p, j, k);
    }
  }

  /** A mapping whose keys and values are all tokens, as `str.split()` yields them. */
  predicate TokenMapping(m: map<string, string>) {
    forall k :: k in m ==> IsToken(k) && IsToken(m[k])
  }

  /** The built mapping only holds tokens. */
  lemma MappingIsTokenMapping(pairs: seq<Pair>)
    ensures TokenMapping(Mapping(pairs))
  {
    var tps := SplitPairs(pairs);
    forall k | k in Build(tps) ensures IsToken(k) && IsToken(Build(tps)[k]) {
      BuildProvenance(tps, k);
      var p, j :| WritesKey(tps, p, j, k) && tps[p].1[j] == Build(tps)[k];
      SplitTokens(pairs[p].0);
      SplitTokens(pairs[p].1);
    }
  }

  /** `match_dict.get(word, word)`. */
  function Lookup(m: map<string, string>, w: string): (r: string)
    ensures r == w || r in m.Values
  {
    if w in m then m[w] else w
  }

  /** The replaced token list, `[match_dict.get(word, word) for word in words]`. */
  function ReplaceTokens(ws: seq<string>, m: map<string, string>): seq<string> {
    seq(|ws|, i requires 0 <= i < |ws| => Lookup(m, ws[i]))
  }

  /** `replace_words(input_text, match_dict)`. */
  function ReplaceWords(text: string, m: map<string, string>): string {
    Join(ReplaceTokens(Split(text), m))
  }

  /** Token count, order and position are preserved: output token `i` is the
      mapped value of input token `i` when that token is a key, and the token
      itself otherwise. */
  lemma ReplaceWordsTokens(text: string, m: map<string, string>)
    requires TokenMapping(m)
    ensures var ws, out := Split(text), Split(ReplaceWords(text, m));
      |out| == |ws|
      && forall i :: 0 <= i < |ws| ==> out[i] == (if ws[i] in m then m[ws[i]] else ws[i])
  {
    SplitTokens(text);
    SplitJoin(ReplaceTokens(Split(text), m));
  }

  /** The form in which the pipeline uses it: on a mapping built from training pairs. */
  lemma ReplaceWordsWithBuiltMapping(pairs: seq<Pair>, text: string)
    ensures |Split(ReplaceWords(text, Mapping(pairs)))| == |Split(text)|
  {
    MappingIsTokenMapping(pairs);
    ReplaceWordsTokens(text, Mapping(pairs));
  }

  /** Unseen tokens pass through: when no token of `text` is a key, the result
      is the tokens of `text` re-joined with single spaces. */
  lemma ReplaceWordsUnmapped(text: string, m: map<string, string>)
    requires forall i :: 0 <= i < |Split(text)| ==> Split(text)[i] !in m
    ensures ReplaceWords(text, m) == Join(Split(text))
  {
    assert ReplaceTokens(Split(text), m) == Split(text);
  }

  /** With an empty mapping, restoration only normalises whitespace. */
  lemma ReplaceWordsEmptyMapping(text: string)
    ensures ReplaceWords(text, map[]) == Join(Split(text))
  {
    ReplaceWordsUnmapped(text, map[]);
  }

  /** Re-applying the mapping is a no-op when every value of the mapping is
      either not a key or a key mapped to itself. */
  lemma ReplaceWordsIdempotent(text: string, m: map<string, string>)
    requires TokenMapping(m)
    requires forall k :: k in m && m[k] in m ==> m[m[k]] == m[k]
    ensures ReplaceWords(ReplaceWords(text, m), m) == ReplaceWords(text, m)
  {
    var ws := ReplaceTokens(Split(text), m);
    SplitTokens(text);
    assert AllTokens(ws);
    SplitJoin(ws);
    assert ReplaceTokens(ws, m) == ws;
  }

  /** Training texts written as single-space joins of tokens split back into
      those tokens, so `Mapping` of such pairs is `Build` of the token lists. */
  lemma MappingOfJoinedTexts(pairs: seq<Pair>, tps: seq<TokenPair>)
    requires |pairs| == |tps|
    requires forall p :: 0 <= p < |tps| ==> AllTokens(tps[p].0) && AllTokens(tps[p].1)
    requires forall p :: 0 <= p < |tps| ==> pairs[p] == (Join(tps[p].0), Join(tps[p].1))
    ensures Mapping(pairs) == Build(tps)
  {
    forall p | 0 <= p < |tps| ensures SplitPairs(pairs)[p] == tps[p] {
      SplitJoin(tps[p].0);
      SplitJoin(tps[p].1);
    }
    assert SplitPairs(pairs) == tps;
  }

  lemma LastWinsTwo(a: Entry, b: Entry)
    ensures LastWins([a, b]) == map[a.0 := a.1][b.0 := b.1]
  {
    assert [a, b][..1] == [a];
    assert [a][..0] == [];
    assert LastWins([a]) == map[a.0 := a.1];
  }

  lemma BuildOnePair(tp: TokenPair)
    ensures Build([tp]) == LastWins(Zip(tp.0, tp.1))
  {
    assert [tp][..0] == [];
    assert Entries([tp]) == [] + Zip(tp.0, tp.1);
    assert [] + Zip(tp.0, tp.1) == Zip(tp.0, tp.1);
  }

  /** The pair ("안뇽 세상", "안녕 세상"): both positions are written, the
      unchanged one as an identity entry, and in "안뇽 친구" the unseen
      token passes through. */
  lemma ScenarioSubstitution()
    ensures Build([(["안뇽", "세상"], ["안녕", "세상"])]) == map["안뇽" := "안녕", "세상" := "세상"]
    ensures ReplaceTokens(["안뇽", "친구"], Build([(["안뇽", "세상"], ["안녕", "세상"])])) == ["안녕", "친구"]
  {
    BuildOnePair((["안뇽", "세상"], ["안녕", "세상"]));
    assert Zip(["안뇽", "세상"], ["안녕", "세상"]) == [("안뇽", "안녕"), ("세상", "세상")];
    LastWinsTwo(("안뇽", "안녕"), ("세상", "세상"));
  }

  /** The pairs ("가 나", "A B") then ("가 다", "C D"): the later pair's
      original token wins for "가". */
  lemma ScenarioLastWriteWins()
    ensures var tps := [(["가", "나"], ["A", "B"]), (["가", "다"], ["C", "D"])];
      "가" in Build(tps) && Build(tps)["가"] == "C"
  {
    var tps := [(["가", "나"], ["A", "B"]), (["가", "다"], ["C", "D"])];
    assert WritesKey(tps, 1, 0, "가");
    forall j' | 0 < j' ensures !WritesKey(tps, 1, j', "가") {
      if j' == 1 { assert tps[1].0[1] == "다"; }
    }
    BuildLastWriteWins(tps, 1, 0, "가");
  }

  /** The pair ("한 단어", "하나의 원래 단어"): only the first two positions
      are aligned and the third original token is never used. */
  lemma ScenarioMismatchedLengths()
    ensures Build([(["한", "단어"], ["하나의", "원래", "단어"])]) == map["한" := "하나의", "단어" := "원래"]
  {
    BuildOnePair((["한", "단어"], ["하나의", "원래", "단어"]));
    assert Zip(["한", "단어"], ["하나의", "원래", "단어"]) == [("한", "하나의"), ("단어", "원래")];
    LastWinsTwo(("한", "하나의"), ("단어", "원래"));
  }
}
