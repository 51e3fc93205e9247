/** The deterministic parts of TextRestorationSystem in chatgpt.py: the
    few-shot system prompt, the pattern analysis of the input text, the
    post-processing of the model's reply, and the control flow of
    `restore_text` around the external completion call. */
module Restoration {
  import opened Wrappers
  import opened Text

  /** A few-shot example: (obfuscated input, original output). */
  type Example = (string, string)

  // ---------------------------------------------------------------------
  // System prompt
  // ---------------------------------------------------------------------

  /** The fixed instructions that open every system prompt. */
  function PromptHeader(): string {
    "당신은 난독화된 한국어 텍스트를 원문으로 복원하는 전문가입니다. "
    + "다음의 규칙과 패턴을 참고하여 텍스트를 복원하세요:\n\n"
    + "1. 자음/모음 대체 패턴:\n"
    + "- ㅏ→ㅑ, ㅓ→ㅕ 등의 변환이 자주 발생\n"
    + "- 받침의 경우 ㄱ→ㄲ, ㄹ→ㄷ 등으로 변환\n\n"
    + "2. 단어 구조:\n"
    + "- 기본 형태는 유지되나 자음/모음이 변형됨\n"
    + "- 띄어쓰기는 대체로 원문과 유사하게 유지됨\n\n"
    + "3. 문맥 고려사항:\n"
    + "- 리뷰 텍스트의 특성을 반영 (숙소, 음식점 등)\n"
    + "- 감정 표현과 평가 내용의 일관성 유지\n\n"
    + "예시:\n"
  }

  /** At most this many examples go into the prompt. */
  const MaxExamples: nat := 5

  /** One example as it appears in the prompt. */
  function ExampleBlock(e: Example): string {
    "입력: " + e.0 + "\n출력: " + e.1 + "\n\n"
  }

  /** The blocks of `es`, in order. */
  function ExampleBlocks(es: seq<Example>): string {
    if es == [] then "" else ExampleBlocks(es[..|es| - 1]) + ExampleBlock(es[|es| - 1])
  }

  /** `header` followed by the blocks of the first `min(5, |examples|)` examples. */
  function WithExamples(header: string, examples: seq<Example>): string {
    header + ExampleBlocks(examples[..Min(MaxExamples, |examples|)])
  }

  /** The prompt built from `examples`. */
  function SystemPrompt(examples: seq<Example>): string {
    WithExamples(PromptHeader(), examples)
  }

  lemma ExampleBlocksSnoc(es: seq<Example>, i: int)
    requires 0 <= i < |es|
    ensures ExampleBlocks(es[..i + 1]) == ExampleBlocks(es[..i]) + ExampleBlock(es[i])
  {
    assert es[..i + 1][..i] == es[..i];
  }

  /** The loop of `_create_system_prompt`: one block per example appended to `prompt0`. */
  method AppendExampleBlocks(prompt0: string, es: seq<Example>) returns (prompt: string)
    ensures prompt == prompt0 + ExampleBlocks(es)
  {
    prompt := prompt0;
    assert es[..0] == [];
    for i := 0 to |es|
      invariant prompt == prompt0 + ExampleBlocks(es[..i])
    {
      ExampleBlocksSnoc(es, i);
      assert prompt0 + ExampleBlocks(es[..i]) + ExampleBlock(es[i])
        == prompt0 + (ExampleBlocks(es[..i]) + ExampleBlock(es[i]));
      prompt := prompt + ExampleBlock(es[i]);
    }
    assert es[..|es|] == es;
  }

  /** `_create_system_prompt`: the header, then one block per example of `examples[:5]`. */
  method CreateSystemPrompt(examples: seq<Example>) returns (prompt: string)
    ensures prompt == SystemPrompt(examples)
  {
    var header := PromptHeader();
    prompt := AppendExampleBlocks(header, examples[..Min(MaxExamples, |examples|)]);
    assert prompt == WithExamples(header, examples);
  }

  /** The blocks of two example lists, one after the other. */
  lemma {:induction false} ExampleBlocksAppend(a: seq<Example>, b: seq<Example>)
    ensures ExampleBlocks(a + b) == ExampleBlocks(a) + ExampleBlocks(b)
  {
    if b == [] {
      assert a + b == a;
    } else {
      var b', e := b[..|b| - 1], b[|b| - 1];
      var x, y, z := ExampleBlocks(a), ExampleBlocks(b'), ExampleBlock(e);
      assert (a + b)[..|a + b| - 1] == a + b';
      assert (a + b)[|a + b| - 1] == e;
      ExampleBlocksAppend(a, b');
      calc {
        ExampleBlocks(a + b);
        ExampleBlocks(a + b') + z;
        (x + y) + z;
        x + (y + z);
        x + ExampleBlocks(b);
      }
    }
  }

  /** Example `i`'s block sits between the blocks before it and those after it. */
  lemma BlocksAround(es: seq<Example>, i: int)
    requires 0 <= i < |es|
    ensures ExampleBlocks(es)
      == ExampleBlocks(es[..i]) + ExampleBlock(es[i]) + ExampleBlocks(es[i + 1..])
  {
    var before, after := es[..i + 1], es[i + 1..];
    assert es == before + after;
    ExampleBlocksAppend(before, after);
    ExampleBlocksSnoc(es, i);
  }

  /** Each of the first `min(5, |examples|)` examples appears after the
      header in order: the blocks before example `i`, the block of example
      `i`, then the blocks after it. The header is the fixed text
      `PromptHeader()` in `SystemPrompt`; the layout holds for any header. */
  lemma PromptLayout(header: string, examples: seq<Example>, i: int)
    requires 0 <= i < Min(MaxExamples, |examples|)
    ensures var n := Min(MaxExamples, |examples|);
      WithExamples(header, examples)
        == header + ExampleBlocks(examples[..i]) + ExampleBlock(examples[i])
           + ExampleBlocks(examples[i + 1..n])
  {
    var n := Min(MaxExamples, |examples|);
    var first := examples[..n];
    var x, y, z := ExampleBlocks(examples[..i]), ExampleBlock(examples[i]), ExampleBlocks(examples[i + 1..n]);
    assert ExampleBlocks(first) == x + y + z by {
      BlocksAround(first, i);
      assert first[..i] == examples[..i];
      assert first[i] == examples[i];
      assert first[i + 1..] == examples[i + 1..n];
    }
    calc {
      WithExamples(header, examples);
      header + ExampleBlocks(first);
      header + (x + y + z);
      header + x + y + z;
    }
  }

  /** Examples after the fifth never reach the prompt. */
  lemma PromptIgnoresRest(header: string, examples: seq<Example>, rest: seq<Example>)
    requires |examples| >= MaxExamples
    ensures WithExamples(header, examples + rest) == WithExamples(header, examples)
  {
    assert (examples + rest)[..MaxExamples] == examples[..MaxExamples];
  }

  /** With at most five examples, every one of them is used. */
  lemma PromptUsesAll(header: string, examples: seq<Example>)
    requires |examples| <= MaxExamples
    ensures WithExamples(header, examples) == header + ExampleBlocks(examples)
  {
    assert examples[..|examples|] == examples;
  }

  // ---------------------------------------------------------------------
  // Pattern analysis
  // ---------------------------------------------------------------------

  /** The three lists `_analyze_patterns` returns. */
  datatype Patterns = Patterns(
    specialChars: seq<char>,
    repeatedChars: seq<string>,
    wordEndings: seq<string>)

  /** Neither alphanumeric nor one of ` .,!?`. */
  predicate IsSpecial(c: char, isAlnum: char -> bool) {
    !isAlnum(c) && c !in " .,!?"
  }

  /** `[c for c in text if not c.isalnum() and c not in ' .,!?']`. */
  function SpecialChars(text: string, isAlnum: char -> bool): (r: seq<char>)
    ensures forall i :: 0 <= i < |r| ==> IsSpecial(r[i], isAlnum)
  {
    if text == [] then []
    else (if IsSpecial(text[0], isAlnum) then [text[0]] else []) + SpecialChars(text[1..], isAlnum)
  }

  /** Every special character of `text` is kept as often as it occurs, and
      nothing else is. */
  lemma {:induction false} SpecialCharsCount(text: string, isAlnum: char -> bool, c: char)
    ensures multiset(SpecialChars(text, isAlnum))[c]
      == if IsSpecial(c, isAlnum) then multiset(text)[c] else 0
  {
    if text != [] {
      assert text == [text[0]] + text[1..];
      SpecialCharsCount(text[1..], isAlnum, c);
    }
  }

  /** The special characters of a concatenation: those of each part, in order. */
  lemma {:induction false} SpecialCharsAppend(a: string, b: string, isAlnum: char -> bool)
    ensures SpecialChars(a + b, isAlnum) == SpecialChars(a, isAlnum) + SpecialChars(b, isAlnum)
  {
    if a == [] {
      assert a + b == b;
    } else {
      assert (a + b)[0] == a[0];
      assert (a + b)[1..] == a[1..] + b;
      SpecialCharsAppend(a[1..], b, isAlnum);
    }
  }

  /** The adjacent equal pairs of `w` that start before index `n`, in index order. */
  function RepeatsUpTo(w: string, n: nat): (r: seq<string>)
    requires n == 0 || n < |w|
    ensures |r| <= n
    ensures forall k :: 0 <= k < |r| ==> |r[k]| == 2 && r[k][0] == r[k][1]
  {
    if n == 0 then []
    else RepeatsUpTo(w, n - 1) + (if w[n - 1] == w[n] then [w[n - 1..n + 1]] else [])
  }

  /** The indices below `n` at which `w` has two equal adjacent characters. */
  function RepeatIndices(w: string, n: nat): (ix: seq<nat>)
    requires n == 0 || n < |w|
    ensures forall k :: 0 <= k < |ix| ==> ix[k] < n
    ensures forall k, l :: 0 <= k < l < |ix| ==> ix[k] < ix[l]
    ensures forall i :: 0 <= i < n ==> (i in ix <==> w[i] == w[i + 1])
  {
    if n == 0 then []
    else RepeatIndices(w, n - 1) + (if w[n - 1] == w[n] then [n - 1] else [])
  }

  /** `r` lists the two-character slices of `w` at the indices `ix`, one per index. */
  predicate Paired(w: string, r: seq<string>, ix: seq<nat>) {
    |r| == |ix| && forall k :: 0 <= k < |r| ==> ix[k] + 2 <= |w| && r[k] == w[ix[k]..ix[k] + 2]
  }

  /** Scanning index `i` keeps the repeats paired with their indices. */
  lemma PairedSnoc(w: string, r: seq<string>, ix: seq<nat>, i: nat)
    requires i + 1 < |w| && Paired(w, r, ix)
    ensures var eq := w[i] == w[i + 1];
      Paired(w, r + (if eq then [w[i..i + 2]] else []), ix + (if eq then [i] else []))
  {
    if w[i] == w[i + 1] {
      var r2, ix2 := r + [w[i..i + 2]], ix + [i];
      forall k | 0 <= k < |r2| ensures ix2[k] + 2 <= |w| && r2[k] == w[ix2[k]..ix2[k] + 2] {
        if k < |r| {
          assert r2[k] == r[k] && ix2[k] == ix[k];
        }
      }
    } else {
      assert r + [] == r && ix + [] == ix;
    }
  }

  /** The repeats of a word below `n` are exactly the two-character slices
      at its equal-adjacent indices, one per index, in increasing order. */
  lemma {:induction false} RepeatsAtIndices(w: string, n: nat)
    requires n == 0 || n < |w|
    ensures Paired(w, RepeatsUpTo(w, n), RepeatIndices(w, n))
  {
    if n > 0 {
      RepeatsAtIndices(w, n - 1);
      PairedSnoc(w, RepeatsUpTo(w, n - 1), RepeatIndices(w, n - 1), n - 1);
    }
  }

  /** The repeats of one word: `for i in range(len(word)-1)`. */
  function WordRepeats(w: string): (r: seq<string>)
    ensures |r| <= |w|
    ensures forall k :: 0 <= k < |r| ==> |r[k]| == 2 && r[k][0] == r[k][1]
  {
    RepeatsUpTo(w, if |w| == 0 then 0 else |w| - 1)
  }

  /** A word of length at most one has no adjacent pair. */
  lemma WordRepeatsShort(w: string)
    requires |w| <= 1
    ensures WordRepeats(w) == []
  {
  }

  /** Overlapping repeats each count: "aaa" yields "aa" twice. */
  lemma WordRepeatsTriple()
    ensures WordRepeats("aaa") == ["aa", "aa"]
  {
    assert "aaa"[0..2] == "aa" && "aaa"[1..3] == "aa";
  }

  /** `repeated_chars` for a list of words: each word's repeats, word by word. */
  function RepeatedChars(words: seq<string>): (r: seq<string>)
    ensures forall k :: 0 <= k < |r| ==> |r[k]| == 2 && r[k][0] == r[k][1]
  {
    if words == [] then []
    else RepeatedChars(words[..|words| - 1]) + WordRepeats(words[|words| - 1])
  }

  /** `word_endings` for a list of words: the last two characters of every
      word longer than two, word by word. */
  function WordEndings(words: seq<string>): (r: seq<string>)
    ensures |r| <= |words|
    ensures forall k :: 0 <= k < |r| ==> |r[k]| == 2
  {
    if words == [] then []
    else
      var w := words[|words| - 1];
      WordEndings(words[..|words| - 1]) + (if |w| > 2 then [w[|w| - 2..]] else [])
  }

  /** The repeats of two word lists, one after the other. */
  lemma {:induction false} RepeatedCharsAppend(a: seq<string>, b: seq<string>)
    ensures RepeatedChars(a + b) == RepeatedChars(a) + RepeatedChars(b)
  {
    if b == [] {
      assert a + b == a;
    } else {
      var b' := b[..|b| - 1];
      assert (a + b)[..|a + b| - 1] == a + b';
      RepeatedCharsAppend(a, b');
    }
  }

  /** The endings of two word lists, one after the other. */
  lemma {:induction false} WordEndingsAppend(a: seq<string>, b: seq<string>)
    ensures WordEndings(a + b) == WordEndings(a) + WordEndings(b)
  {
    if b == [] {
      assert a + b == a;
    } else {
      var b' := b[..|b| - 1];
      assert (a + b)[..|a + b| - 1] == a + b';
      WordEndingsAppend(a, b');
    }
  }

  /** A single word contributes one ending exactly when it is longer than two,
      and that ending is its last two characters. */
  lemma WordEndingsOfWord(w: string)
    ensures WordEndings([w]) == if |w| > 2 then [w[|w| - 2..]] else []
  {
    assert [w][..0] == [];
  }

  lemma PatternsSnoc(words: seq<string>, k: int)
    requires 0 <= k < |words|
    ensures RepeatedChars(words[..k + 1]) == RepeatedChars(words[..k]) + WordRepeats(words[k])
    ensures var w := words[k];
      WordEndings(words[..k + 1]) == WordEndings(words[..k]) + (if |w| > 2 then [w[|w| - 2..]] else [])
  {
    assert words[..k + 1][..k] == words[..k];
  }

  /** `_analyze_patterns(text)`: the special characters of the whole text, and
      for every word of `text.split()` its adjacent equal pairs and, when it
      is longer than two, its last two characters. */
  method AnalyzePatterns(text: string, isAlnum: char -> bool) returns (p: Patterns)
    ensures p.specialChars == SpecialChars(text, isAlnum)
    ensures p.repeatedChars == RepeatedChars(Split(text))
    ensures p.wordEndings == WordEndings(Split(text))
  {
    var repeated: seq<string> := [];
    var endings: seq<string> := [];
    var words := Split(text);
    var k := 0;
    while k < |words|
      invariant 0 <= k <= |words|
      invariant repeated == RepeatedChars(words[..k])
      invariant endings == WordEndings(words[..k])
    {
      var word := words[k];
      ghost var done := RepeatedChars(words[..k]);
      var i := 0;
      while i < |word| - 1
        invariant 0 <= i && (i == 0 || i < |word|)
        invariant i <= |word| - 1 || i == 0
        invariant repeated == done + RepeatsUpTo(word, i)
      {
        if word[i] == word[i + 1] {
          repeated := repeated + [word[i..i + 2]];
        }
        i := i + 1;
      }
      if |word| > 2 {
        endings := endings + [word[|word| - 2..]];
      }
      PatternsSnoc(words, k);
      k := k + 1;
    }
    assert words[..|words|] == words;
    p := Patterns(SpecialChars(text, isAlnum), repeated, endings);
  }

  // ---------------------------------------------------------------------
  // Post-processing of the reply
  // ---------------------------------------------------------------------

  /** The label the model may put in front of its answer. */
  const Label: string := "복원 결과: "

  predicate StartsWithLabel(s: string) {
    |Label| <= |s| && s[..|Label|] == Label
  }

  /** `s` contains the label somewhere. */
  predicate ContainsLabel(s: string) {
    exists i :: 0 <= i && i + |Label| <= |s| && StartsWithLabel(s[i..])
  }

  /** `s.replace('복원 결과: ', '')`: scan left to right, deleting every
      occurrence found and continuing after it. */
  function RemoveLabel(s: string): (r: string)
    ensures |r| <= |s|
    decreases |s|
  {
    if StartsWithLabel(s) then RemoveLabel(s[|Label|..])
    else if s == [] then []
    else [s[0]] + RemoveLabel(s[1..])
  }

  predicate IsQuote(c: char) { c == '"' || c == '\'' }

  /** The reply's content stripped of whitespace, of every label, then of
      quote characters at both ends. */
  function PostProcess(content: string): (r: string)
    ensures r == [] || (!IsQuote(r[0]) && !IsQuote(r[|r| - 1]))
  {
    var trimmed := Strip(content, IsSpace);
    var unlabelled := RemoveLabel(trimmed);
    Strip(unlabelled, IsQuote)
  }

  /** The post-processed reply is a slice of the trimmed, label-free reply,
      and everything cut off on either side of it is a quote character. */
  lemma PostProcessSlice(content: string)
    ensures var u, r := RemoveLabel(Strip(content, IsSpace)), PostProcess(content);
      var lo := LeadingRun(u, IsQuote);
      && lo + |r| <= |u| && r == u[lo..lo + |r|]
      && Dropped(u, 0, lo, IsQuote) && Dropped(u, lo + |r|, |u|, IsQuote)
  {
    var u := RemoveLabel(Strip(content, IsSpace));
    assert PostProcess(content) == Strip(u, IsQuote);
  }

  /** A reply without the label is left as it is by the label removal. */
  lemma {:induction false} RemoveLabelUnchanged(s: string)
    requires !ContainsLabel(s)
    ensures RemoveLabel(s) == s
    decreases |s|
  {
    if s != [] {
      assert s[0..] == s;
      assert !StartsWithLabel(s);
      forall i | 0 <= i && i + |Label| <= |s[1..]| ensures !StartsWithLabel(s[1..][i..]) {
        assert s[1..][i..] == s[i + 1..];
      }
      RemoveLabelUnchanged(s[1..]);
      assert s == [s[0]] + s[1..];
    }
  }

  /** A leading label is removed. */
  lemma RemoveLabelLeading(s: string)
    ensures RemoveLabel(Label + s) == RemoveLabel(s)
  {
    assert (Label + s)[..|Label|] == Label;
    assert (Label + s)[|Label|..] == s;
  }

  /** A character that does not begin a label is kept. */
  lemma RemoveLabelKeep(c: char, s: string)
    requires !StartsWithLabel([c] + s)
    ensures RemoveLabel([c] + s) == [c] + RemoveLabel(s)
  {
    assert ([c] + s)[1..] == s;
  }

  /** Deleting one occurrence can join its neighbours into a new one, so
      the label can survive the removal: "복원 " + label + "결과: " becomes
      the label itself. */
  lemma RemoveLabelLeavesLabel()
    ensures var a, b := Label[..3], Label[3..];
      a == "복원 " && b == "결과: " && RemoveLabel(a + Label + b) == Label
  {
    var a, b := Label[..3], Label[3..];
    assert !ContainsLabel(b);
    RemoveLabelUnchanged(b);
    RemoveLabelLeading(b);
    var s3 := Label + b;
    var s2 := [Label[2]] + s3;
    var s1 := [Label[1]] + s2;
    var s0 := [Label[0]] + s1;
    assert !StartsWithLabel(s2) by { assert s2[0] != Label[0]; }
    RemoveLabelKeep(Label[2], s3);
    assert !StartsWithLabel(s1) by { assert s1[0] != Label[0]; }
    RemoveLabelKeep(Label[1], s2);
    assert !StartsWithLabel(s0) by { assert s0[3] != Label[3]; }
    RemoveLabelKeep(Label[0], s1);
    assert a + Label + b == s0;
    assert [Label[0]] + ([Label[1]] + ([Label[2]] + b)) == Label;
  }

  /** A text that contains the label loses at least one whole occurrence. */
  lemma {:induction false} RemoveLabelShrinks(s: string)
    requires ContainsLabel(s)
    ensures |RemoveLabel(s)| <= |s| - |Label|
    decreases |s|
  {
    if !StartsWithLabel(s) {
      var i :| 0 <= i && i + |Label| <= |s| && StartsWithLabel(s[i..]);
      assert s[0..] == s;
      assert s[1..][i - 1..] == s[i..];
      assert ContainsLabel(s[1..]);
      RemoveLabelShrinks(s[1..]);
    }
  }

  /** The label removal leaves a text unchanged exactly when it has no label. */
  lemma RemoveLabelIdentity(s: string)
    ensures RemoveLabel(s) == s <==> !ContainsLabel(s)
  {
    if ContainsLabel(s) {
      RemoveLabelShrinks(s);
      assert |Label| > 0;
    } else {
      RemoveLabelUnchanged(s);
    }
  }

  /** The first occurrence is deleted and what comes before it is kept as it
      is; the scan then continues after the deleted occurrence. */
  lemma {:induction false} RemoveLabelFirst(a: string, b: string)
    requires forall i :: 0 <= i < |a| ==> !StartsWithLabel((a + Label + b)[i..])
    ensures RemoveLabel(a + Label + b) == a + RemoveLabel(b)
    decreases |a|
  {
    if a == [] {
      assert a + Label + b == Label + b;
      RemoveLabelLeading(b);
    } else {
      var s, s' := a + Label + b, a[1..] + Label + b;
      assert s == [a[0]] + s';
      assert s[0..] == s;
      RemoveLabelKeep(a[0], s');
      forall i | 0 <= i < |a[1..]| ensures !StartsWithLabel(s'[i..]) {
        assert s'[i..] == s[i + 1..];
      }
      RemoveLabelFirst(a[1..], b);
      assert a == [a[0]] + a[1..];
    }
  }

  /** A reply that is already trimmed, has no quote at either end and holds no
      label comes back unchanged. */
  lemma PostProcessUnchanged(content: string)
    requires content == [] || (!IsSpace(content[0]) && !IsSpace(content[|content| - 1]))
    requires content == [] || (!IsQuote(content[0]) && !IsQuote(content[|content| - 1]))
    requires !ContainsLabel(content)
    ensures PostProcess(content) == content
  {
    StripKeeps(content, IsSpace);
    RemoveLabelUnchanged(content);
    StripKeeps(content, IsQuote);
  }

  /** The fallback reply of `restore_text`: either the completion's text, or
      the input unchanged when the call raised. */
  datatype Reply =
    | Raised                        // the API call raised
    | Completion(content: Option<string>)   // the message content, which may be None

  /** What `restore_text` returns for the model's reply; an absent content
      makes `.strip()` raise inside the `try`, which also falls back. */
  function Restored(inputText: string, reply: Reply): string {
    match reply
    case Completion(Some(content)) => PostProcess(content)
    case _ => inputText
  }

  /** A failed call restores nothing: the input comes back unchanged. */
  lemma RestoredFallback(inputText: string, reply: Reply)
    requires reply.Raised? || reply.content.None?
    ensures Restored(inputText, reply) == inputText
  {
  }

  /** A successful call yields the post-processed content, with no quote at either end. */
  lemma RestoredFromContent(inputText: string, content: string)
    ensures Restored(inputText, Completion(Some(content))) == PostProcess(content)
    ensures var r := PostProcess(content); r == [] || (!IsQuote(r[0]) && !IsQuote(r[|r| - 1]))
  {
  }

  // ---------------------------------------------------------------------
  // restore_text
  // ---------------------------------------------------------------------

  /** The exception that escapes `restore_text`. */
  datatype Exception = TypeError   // 'NoneType' object is not subscriptable

  /** `restore_text` as written: the prompt is built before the `try`, so with
      the default `examples=None` the slice `examples[:5]` raises out of it. */
  method RestoreTextAsWritten(inputText: string, examples: Option<seq<Example>>,
                              isAlnum: char -> bool, reply: Reply)
    returns (r: Result<string, Exception>)
    ensures examples.None? ==> r == Failure(TypeError)
    ensures examples.Some? ==> r == Success(Restored(inputText, reply))
  {
    if examples.None? {
      return Failure(TypeError);
    }
    var systemPrompt := CreateSystemPrompt(examples.value);
    var patterns := AnalyzePatterns(inputText, isAlnum);
    r := Success(Restored(inputText, reply));
  }

  /** `restore_text` with a missing example list read as an empty one: it
      always returns a string, the restored reply or the input unchanged. */
  method RestoreText(inputText: string, examples: Option<seq<Example>>,
                     isAlnum: char -> bool, reply: Reply)
    returns (restored: string)
    ensures restored == Restored(inputText, reply)
  {
    var systemPrompt := CreateSystemPrompt(match examples case Some(es) => es case None => []);
    var patterns := AnalyzePatterns(inputText, isAlnum);
    restored := Restored(inputText, reply);
  }
}
