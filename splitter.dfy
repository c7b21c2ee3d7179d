/** The message splitter of src/relay/split.ts: greedy word wrap on single
    spaces with a hard-split fallback for a word that does not fit, and a
    one-chunk truncation when the prefix leaves no room. `Split` is the
    specification, `SplitMessage` the loop that computes it. */
module Splitter {
  import opened Text

  /** Chunks emitted so far and the body of the chunk being assembled. */
  datatype Wrap = Wrap(parts: seq<string>, current: string)

  function Prefixed(bodies: seq<string>, prefix: string): seq<string> {
    if bodies == [] then [] else [prefix + bodies[0]] + Prefixed(bodies[1..], prefix)
  }

  /** Concatenation of a sequence of strings. */
  function Concat(ss: seq<string>): string {
    if ss == [] then "" else ss[0] + Concat(ss[1..])
  }

  /** The hard split of one over-long word: slices of exactly `width`
      characters, and a remainder of 1..width characters that seeds the next
      chunk; slices and remainder together spell the word. */
  function HardSplit(word: string, width: int): (r: (seq<string>, string))
    requires width > 0
    ensures forall i :: 0 <= i < |r.0| ==> |r.0[i]| == width
    ensures Concat(r.0) + r.1 == word
    ensures |word| > width ==> 1 <= |r.1| <= width
    ensures |word| <= width ==> r == ([], word)
    decreases |word|
  {
    if |word| > width then
      var rest := HardSplit(word[width..], width);
      var slices := [word[..width]] + rest.0;
      ConcatCons(word[..width], rest.0);
      AppendAssoc(word[..width], Concat(rest.0), rest.1);
      assert word == word[..width] + word[width..];
      assert forall i :: 1 <= i < |slices| ==> slices[i] == rest.0[i - 1];
      (slices, rest.1)
    else ([], word)
  }

  lemma AppendAssoc(x: string, y: string, z: string)
    ensures (x + y) + z == x + (y + z)
  {
  }

  lemma ConcatCons(x: string, ss: seq<string>)
    ensures Concat([x] + ss) == x + Concat(ss)
  {
    assert ([x] + ss)[1..] == ss;
  }

  /** One iteration of the `for (const word of words)` loop. */
  function Step(st: Wrap, word: string, width: int, prefix: string): Wrap
    requires width > 0
  {
    var sep := if st.current != "" then " " else "";
    if |st.current + sep + word| > width then
      if |st.current| > 0 then Wrap(st.parts + [prefix + st.current], word)
      else
        var hard := HardSplit(word, width);
        Wrap(st.parts + Prefixed(hard.0, prefix), hard.1)
    else Wrap(st.parts, st.current + sep + word)
  }

  /** The loop state after the given words, taken left to right. */
  function WrapAll(words: seq<string>, width: int, prefix: string): Wrap
    requires width > 0
    decreases |words|
  {
    if words == [] then Wrap([], "")
    else Step(WrapAll(words[..|words| - 1], width, prefix), words[|words| - 1], width, prefix)
  }

  /** The final `if (currentPart.length > 0) parts.push(...)`. */
  function Flush(st: Wrap, prefix: string): seq<string> {
    if |st.current| > 0 then st.parts + [prefix + st.current] else st.parts
  }

  /** `text.substring(0, n)`: a negative end counts as 0, one past the end as the length. */
  function SubstringEnd(n: int, len: nat): (r: nat)
    ensures r <= len && (0 <= n <= len ==> r == n)
  {
    if n < 0 then 0 else if n > len then len else n
  }

  /** `splitMessage(text, maxLen, prefix)`. */
  function Split(text: string, maxLen: int, prefix: string): seq<string> {
    var width := maxLen - |prefix|;
    if width <= 0 then [text[..SubstringEnd(maxLen, |text|)]]
    else if |text| <= width then [prefix + text]
    else Flush(WrapAll(SplitOn(text, ' '), width, prefix), prefix)
  }

  method SplitMessage(text: string, maxLen: int, prefix: string) returns (parts: seq<string>)
    ensures parts == Split(text, maxLen, prefix)
  {
    var width := maxLen - |prefix|;
    if width <= 0 {
      return [text[..SubstringEnd(maxLen, |text|)]];
    }
    if |text| <= width {
      return [prefix + text];
    }
    parts := [];
    var words := SplitOn(text, ' ');
    var current := "";
    for i := 0 to |words|
      invariant Wrap(parts, current) == WrapAll(words[..i], width, prefix)
    {
      WrapAllSnoc(words[..i], words[i], width, prefix);
      assert words[..i + 1] == words[..i] + [words[i]];
      var word := words[i];
      var sep := if current != "" then " " else "";
      if |current + sep + word| > width {
        if |current| > 0 {
          parts := parts + [prefix + current];
          current := word;
        } else {
          parts, current := PushSlices(parts, word, width, prefix);
        }
      } else {
        current := current + sep + word;
      }
    }
    assert words[..|words|] == words;
    if |current| > 0 {
      parts := parts + [prefix + current];
    }
  }

  /** The inner `while (remaining.length > maxContentLen)` loop: pushes the
      full-width slices of `word` and returns what is left of it. */
  method PushSlices(before: seq<string>, word: string, width: int, prefix: string)
    returns (parts: seq<string>, remaining: string)
    requires width > 0
    ensures parts == before + Prefixed(HardSplit(word, width).0, prefix)
    ensures remaining == HardSplit(word, width).1
  {
    parts := before;
    remaining := word;
    while |remaining| > width
      invariant parts + Prefixed(HardSplit(remaining, width).0, prefix)
                == before + Prefixed(HardSplit(word, width).0, prefix)
      invariant HardSplit(remaining, width).1 == HardSplit(word, width).1
      decreases |remaining|
    {
      parts := parts + [prefix + remaining[..width]];
      remaining := remaining[width..];
    }
  }

  // ---------------------------------------------------------------------
  // Properties of Split
  // ---------------------------------------------------------------------

  predicate NoLongWord(words: seq<string>, width: int) {
    forall i :: 0 <= i < |words| ==> |words[i]| <= width
  }

  predicate NoEmptyWord(words: seq<string>) {
    forall i :: 0 <= i < |words| ==> words[i] != ""
  }

  /** The chunk body: what follows the prefix. */
  function Bodies(chunks: seq<string>, prefix: string): (r: seq<string>)
    ensures |r| == |chunks|
  {
    if chunks == [] then []
    else [chunks[0][if |prefix| <= |chunks[0]| then |prefix| else 0..]] + Bodies(chunks[1..], prefix)
  }

  /** When the prefix leaves no room, the result is the first `maxLen`
      characters of the text as a single chunk, without the prefix. */
  lemma DegenerateIsOneTruncatedChunk(text: string, maxLen: int, prefix: string)
    requires maxLen - |prefix| <= 0 && maxLen >= 0
    ensures |Split(text, maxLen, prefix)| == 1
    ensures var c := Split(text, maxLen, prefix)[0];
      |c| == (if maxLen <= |text| then maxLen else |text|) && StartsWith(text, c)
  {
  }

  /** Text that fits is a single prefixed chunk; empty text gives `[prefix]`. */
  lemma ShortTextIsOneChunk(text: string, maxLen: int, prefix: string)
    requires 0 < maxLen - |prefix| && |text| <= maxLen - |prefix|
    ensures Split(text, maxLen, prefix) == [prefix + text]
    ensures text == "" ==> Split(text, maxLen, prefix) == [prefix]
  {
    assert text == "" ==> prefix + text == prefix;
  }

  /** A chunk body is within the width, or else it is one of the words. */
  predicate Fits(body: string, width: int, words: seq<string>) {
    |body| <= width || body in words
  }

  predicate PartsFit(parts: seq<string>, prefix: string, width: int, words: seq<string>) {
    forall i :: 0 <= i < |parts| ==>
      StartsWith(parts[i], prefix) && Fits(parts[i][|prefix|..], width, words)
  }

  lemma {:induction false} WrapAllFits(words: seq<string>, width: int, prefix: string)
    requires width > 0
    ensures var st := WrapAll(words, width, prefix);
      PartsFit(st.parts, prefix, width, words) && Fits(st.current, width, words)
    decreases |words|
  {
    if words != [] {
      var init := words[..|words| - 1];
      var w := words[|words| - 1];
      WrapAllFits(init, width, prefix);
      var st := WrapAll(init, width, prefix);
      assert forall x :: x in init ==> x in words;
      assert w in words;
      var sep := if st.current != "" then " " else "";
      if |st.current + sep + w| > width {
        if |st.current| > 0 {
          // `st.current` fits because it is either short or a word; it is pushed whole.
          assert (prefix + st.current)[|prefix|..] == st.current;
        } else {
          var hard := HardSplit(w, width);
          var ps := Prefixed(hard.0, prefix);
          PrefixedShape(hard.0, prefix);
          assert forall i :: 0 <= i < |ps| ==> ps[i][|prefix|..] == hard.0[i];
        }
      }
    }
  }

  lemma {:induction false} PrefixedShape(bodies: seq<string>, prefix: string)
    ensures |Prefixed(bodies, prefix)| == |bodies|
    ensures forall i :: 0 <= i < |bodies| ==> Prefixed(bodies, prefix)[i] == prefix + bodies[i]
    decreases |bodies|
  {
    if bodies != [] {
      PrefixedShape(bodies[1..], prefix);
    }
  }

  /** Every chunk of the word-wrap path starts with the prefix, and its body
      is within the width unless it is a whole space-separated word: the
      only way a chunk overflows is a long word arriving while the chunk
      being assembled is non-empty. */
  lemma ChunksFitOrAreWords(text: string, maxLen: int, prefix: string)
    requires maxLen - |prefix| > 0
    ensures forall i :: 0 <= i < |Split(text, maxLen, prefix)| ==>
      var c := Split(text, maxLen, prefix)[i];
      StartsWith(c, prefix) && Fits(c[|prefix|..], maxLen - |prefix|, SplitOn(text, ' '))
  {
    var width := maxLen - |prefix|;
    if |text| > width {
      var words := SplitOn(text, ' ');
      WrapAllFits(words, width, prefix);
      var st := WrapAll(words, width, prefix);
      assert (prefix + st.current)[|prefix|..] == st.current;
    } else {
      assert (prefix + text)[|prefix|..] == text;
    }
  }

  /** If no space-separated word is longer than the width, every chunk is
      the prefix plus at most `maxLen - |prefix|` characters. */
  lemma ChunkBound(text: string, maxLen: int, prefix: string)
    requires maxLen - |prefix| > 0
    requires NoLongWord(SplitOn(text, ' '), maxLen - |prefix|)
    ensures forall i :: 0 <= i < |Split(text, maxLen, prefix)| ==>
      StartsWith(Split(text, maxLen, prefix)[i], prefix) && |Split(text, maxLen, prefix)[i]| <= maxLen
  {
    ChunksFitOrAreWords(text, maxLen, prefix);
    var words := SplitOn(text, ' ');
    forall i | 0 <= i < |Split(text, maxLen, prefix)|
      ensures |Split(text, maxLen, prefix)[i]| <= maxLen
    {
      var c := Split(text, maxLen, prefix)[i];
      assert c == prefix + c[|prefix|..];
      if c[|prefix|..] in words {
        var k :| 0 <= k < |words| && words[k] == c[|prefix|..];
      }
    }
  }

  /** The bound fails in general: with width 3, the word "cdefgh" follows the
      non-empty chunk "ab" and is emitted whole, 6 characters long. */
  lemma LongWordAfterChunkOverflows(text: string)
    requires text == "ab cdefgh"
    ensures Split(text, 3, "") == ["ab", "cdefgh"]
    ensures |Split(text, 3, "")[1]| > 3
  {
    TwoWords("ab", "cdefgh", 3, "");
    assert text == "ab" + " " + "cdefgh";
    assert "" + "ab" == "ab" && "" + "cdefgh" == "cdefgh";
  }

  lemma WrapAllSnoc(words: seq<string>, w: string, width: int, prefix: string)
    requires width > 0
    ensures WrapAll(words + [w], width, prefix) == Step(WrapAll(words, width, prefix), w, width, prefix)
  {
    assert (words + [w])[..|words|] == words;
  }

  lemma {:induction false} BodiesSnoc(parts: seq<string>, body: string, prefix: string)
    ensures Bodies(parts + [prefix + body], prefix) == Bodies(parts, prefix) + [body]
    decreases |parts|
  {
    if parts == [] {
      assert [] + [prefix + body] == [prefix + body];
      assert (prefix + body)[|prefix|..] == body;
    } else {
      assert (parts + [prefix + body])[1..] == parts[1..] + [prefix + body];
      BodiesSnoc(parts[1..], body, prefix);
    }
  }

  lemma {:induction false} WrapAllRoundTrip(words: seq<string>, width: int, prefix: string)
    requires width > 0 && words != []
    requires NoLongWord(words, width) && NoEmptyWord(words)
    ensures var st := WrapAll(words, width, prefix);
      st.current != "" && Join(Bodies(st.parts, prefix) + [st.current], ' ') == Join(words, ' ')
    decreases |words|
  {
    var init := words[..|words| - 1];
    var w := words[|words| - 1];
    assert words == init + [w];
    assert w != "" && |w| <= width;
    WrapAllSnoc(init, w, width, prefix);
    if init == [] {
      assert WrapAll(words, width, prefix) == Wrap([], "" + "" + w);
      assert "" + "" + w == w;
    } else {
      WrapAllRoundTrip(init, width, prefix);
      var st := WrapAll(init, width, prefix);
      JoinSnoc(init, w, ' ');
      RoundTripStep(st, w, width, prefix);
    }
  }

  /** One word keeps the round trip: if the chunks so far and the current
      body spell some text, after `w` they spell that text, a space and `w`. */
  lemma RoundTripStep(st: Wrap, w: string, width: int, prefix: string)
    requires width > 0 && st.current != "" && w != "" && |w| <= width
    ensures var next := Step(st, w, width, prefix);
      next.current != "" &&
      Join(Bodies(next.parts, prefix) + [next.current], ' ')
        == Join(Bodies(st.parts, prefix) + [st.current], ' ') + [' '] + w
  {
    var b := Bodies(st.parts, prefix);
    if |st.current + " " + w| > width {
      BodiesSnoc(st.parts, st.current, prefix);
      JoinSnoc(b + [st.current], w, ' ');
      assert b + [st.current] + [w] == Bodies(st.parts + [prefix + st.current], prefix) + [w];
    } else if b != [] {
      JoinSnoc(b, st.current + " " + w, ' ');
      JoinSnoc(b, st.current, ' ');
    }
  }

  /** Round trip: when no word is empty or longer than the width, the chunk
      bodies joined with single spaces give back the text. */
  lemma RoundTrip(text: string, maxLen: int, prefix: string)
    requires maxLen - |prefix| > 0
    requires NoLongWord(SplitOn(text, ' '), maxLen - |prefix|) && NoEmptyWord(SplitOn(text, ' '))
    ensures Join(Bodies(Split(text, maxLen, prefix), prefix), ' ') == text
  {
    var width := maxLen - |prefix|;
    if |text| <= width {
      assert Bodies([prefix + text], prefix) == [text] by {
        assert (prefix + text)[|prefix|..] == text;
      }
    } else {
      var words := SplitOn(text, ' ');
      WrapAllRoundTrip(words, width, prefix);
      var st := WrapAll(words, width, prefix);
      BodiesSnoc(st.parts, st.current, prefix);
    }
  }

  lemma {:induction false} SplitOnSeparatorsOnly(s: string, sep: char)
    requires forall i :: 0 <= i < |s| ==> s[i] == sep
    ensures NoLongWord(SplitOn(s, sep), 0)
    decreases |s|
  {
    if s != [] {
      SplitOnSeparatorsOnly(s[1..], sep);
    }
  }

  lemma {:induction false} WrapAllEmptyWords(words: seq<string>, width: int, prefix: string)
    requires width > 0 && NoLongWord(words, 0)
    ensures WrapAll(words, width, prefix) == Wrap([], "")
    decreases |words|
  {
    if words != [] {
      WrapAllEmptyWords(words[..|words| - 1], width, prefix);
      assert words[|words| - 1] == "";
    }
  }

  /** Text longer than the width made only of spaces gives no chunk at all. */
  lemma OnlySpacesGivesNothing(text: string, maxLen: int, prefix: string)
    requires 0 < maxLen - |prefix| < |text|
    requires forall i :: 0 <= i < |text| ==> text[i] == ' '
    ensures Split(text, maxLen, prefix) == []
  {
    var words := SplitOn(text, ' ');
    assert Split(text, maxLen, prefix) == Flush(WrapAll(words, maxLen - |prefix|, prefix), prefix);
    SplitOnSeparatorsOnly(text, ' ');
    WrapAllEmptyWords(words, maxLen - |prefix|, prefix);
  }

  lemma StepExtends(st: Wrap, w: string, width: int, prefix: string)
    requires width > 0
    ensures var next := Step(st, w, width, prefix).parts;
      |st.parts| <= |next| && next[..|st.parts|] == st.parts
  {
  }

  /** Later words only append chunks: the chunks emitted after a prefix of the
      words stay at the head of the final result. */
  lemma {:induction false} PartsOnlyGrow(words: seq<string>, k: nat, width: int, prefix: string)
    requires width > 0 && k <= |words|
    ensures var early := WrapAll(words[..k], width, prefix).parts;
      var all := WrapAll(words, width, prefix).parts;
      |early| <= |all| && all[..|early|] == early
    decreases |words| - k
  {
    if k < |words| {
      PartsOnlyGrow(words, k + 1, width, prefix);
      WrapAllSnoc(words[..k], words[k], width, prefix);
      assert words[..k + 1] == words[..k] + [words[k]];
      StepExtends(WrapAll(words[..k], width, prefix), words[k], width, prefix);
    } else {
      assert words[..k] == words;
    }
  }

  function ScenarioWords(): seq<string> {
    ["This", "is", "a", "long", "message", "that", "needs", "splitting"]
  }

  lemma ScenarioJoinTailA()
    ensures Join(["a", "long", "message"], ' ') == "a long message"
  {
  }

  lemma ScenarioJoinTailB()
    ensures Join(["that", "needs", "splitting"], ' ') == "that needs splitting"
  {
  }

  lemma ScenarioTextTail()
    ensures "a long message" + [' '] + "that needs splitting" == "a long message that needs splitting"
  {
  }

  lemma ScenarioJoinTail()
    ensures Join(["a", "long", "message", "that", "needs", "splitting"], ' ')
      == "a long message that needs splitting"
  {
    var a: seq<string> := ["a", "long", "message"];
    var b: seq<string> := ["that", "needs", "splitting"];
    ScenarioJoinTailA();
    ScenarioJoinTailB();
    JoinAppend(a, b, ' ');
    assert a + b == ["a", "long", "message", "that", "needs", "splitting"];
    ScenarioTextTail();
  }

  lemma ScenarioJoinHead()
    ensures Join(["This", "is"], ' ') == "This is"
  {
  }

  lemma ScenarioText()
    ensures "This is" + [' '] + "a long message that needs splitting"
      == "This is a long message that needs splitting"
  {
  }

  lemma ScenarioSplitOn(text: string)
    requires text == "This is a long message that needs splitting"
    ensures SplitOn(text, ' ') == ScenarioWords()
  {
    var a: seq<string> := ["This", "is"];
    var b: seq<string> := ["a", "long", "message", "that", "needs", "splitting"];
    ScenarioJoinHead();
    ScenarioJoinTail();
    JoinAppend(a, b, ' ');
    assert a + b == ScenarioWords();
    ScenarioText();
    SplitOnJoin(ScenarioWords(), ' ');
  }

  lemma ScenarioFirstThree()
    ensures WrapAll(ScenarioWords()[..3], 10, "") == Wrap([], "This is a")
  {
    var s1: seq<string> := ["This"];
    var s2: seq<string> := s1 + ["is"];
    var s3: seq<string> := s2 + ["a"];
    assert ScenarioWords()[..3] == s3;
    assert s1 == [] + ["This"];
    WrapAllSnoc([], "This", 10, "");
    assert WrapAll(s1, 10, "") == Wrap([], "This");
    WrapAllSnoc(s1, "is", 10, "");
    assert WrapAll(s2, 10, "") == Wrap([], "This is");
    WrapAllSnoc(s2, "a", 10, "");
  }

  lemma ScenarioFirstSix()
    ensures WrapAll(ScenarioWords()[..6], 10, "") == Wrap(["This is a", "long", "message"], "that")
  {
    var w := ScenarioWords();
    ScenarioFirstThree();
    assert w[..4] == w[..3] + ["long"];
    WrapAllSnoc(w[..3], "long", 10, "");
    assert "" + "This is a" == "This is a" && "" + "long" == "long" && "" + "message" == "message";
    assert |"This is a" + " " + "long"| > 10 && |"long" + " " + "message"| > 10;
    assert |"message" + " " + "that"| > 10;
    assert WrapAll(w[..4], 10, "") == Wrap(["This is a"], "long");
    assert w[..5] == w[..4] + ["message"];
    WrapAllSnoc(w[..4], "message", 10, "");
    assert WrapAll(w[..5], 10, "") == Wrap(["This is a", "long"], "message");
    assert w[..6] == w[..5] + ["that"];
    WrapAllSnoc(w[..5], "that", 10, "");
  }

  lemma ScenarioWrapWords()
    ensures var r := Flush(WrapAll(ScenarioWords(), 10, ""), "");
      |r| >= 3 && r[..3] == ["This is a", "long", "message"]
  {
    var st := WrapAll(ScenarioWords(), 10, "");
    ScenarioFirstSix();
    PartsOnlyGrow(ScenarioWords(), 6, 10, "");
    assert |Flush(st, "")| >= |st.parts| && Flush(st, "")[..|st.parts|] == st.parts;
  }

  /** Greedy wrap at width 10 starts with "This is a", "long", "message". */
  lemma ScenarioWordWrap(text: string)
    requires text == "This is a long message that needs splitting"
    ensures |Split(text, 10, "")| >= 3
    ensures Split(text, 10, "")[..3] == ["This is a", "long", "message"]
  {
    ScenarioSplitOn(text);
    ScenarioWrapWords();
    assert |text| > 10;
  }

  /** Two words that do not fit together become two prefixed chunks when the
      first fits alone; the second is emitted whole, however long it is. */
  lemma TwoWords(a: string, b: string, maxLen: int, prefix: string)
    requires ' ' !in a && ' ' !in b && a != "" && b != ""
    requires 0 < |a| <= maxLen - |prefix| < |a| + 1 + |b|
    ensures Split(a + " " + b, maxLen, prefix) == [prefix + a, prefix + b]
  {
    var width := maxLen - |prefix|;
    SplitWords(a, b, ' ');
    assert a + " " + b == a + [' '] + b;
    WrapAllSnoc([], a, width, prefix);
    assert [] + [a] == [a];
    assert WrapAll([a], width, prefix) == Wrap([], a) by {
      assert "" + "" + a == a;
    }
    WrapAllSnoc([a], b, width, prefix);
    assert [a] + [b] == [a, b];
    assert |a + " " + b| > width;
    assert WrapAll([a, b], width, prefix) == Wrap([prefix + a], b);
  }

  lemma ScenarioPrefix(text: string)
    requires text == "12345 67890"
    ensures Split(text, 10, "PRE: ") == ["PRE: 12345", "PRE: 67890"]
  {
    TwoWords("12345", "67890", 10, "PRE: ");
    assert text == "12345" + " " + "67890";
    assert "PRE: " + "12345" == "PRE: 12345" && "PRE: " + "67890" == "PRE: 67890";
  }

  /** A single word of between one and two widths is cut into a full slice
      and the remainder. */
  lemma TwoSlices(w: string, maxLen: int, prefix: string)
    requires ' ' !in w
    requires 0 < maxLen - |prefix| < |w| <= 2 * (maxLen - |prefix|)
    ensures Split(w, maxLen, prefix) == [prefix + w[..maxLen - |prefix|], prefix + w[maxLen - |prefix|..]]
  {
    var width := maxLen - |prefix|;
    SplitOnWord(w, ' ');
    assert [w] == [] + [w];
    WrapAllSnoc([], w, width, prefix);
    assert "" + "" + w == w;
    assert HardSplit(w[width..], width) == ([], w[width..]);
    assert HardSplit(w, width) == ([w[..width]] + [], w[width..]);
    assert Prefixed([w[..width]], prefix) == [prefix + w[..width]];
    assert WrapAll([w], width, prefix) == Wrap([prefix + w[..width]], w[width..]);
  }

  lemma ScenarioHardSplit(text: string)
    requires text == "AAAAABBBBB"
    ensures Split(text, 5, "") == ["AAAAA", "BBBBB"]
  {
    assert ' ' !in text;
    TwoSlices(text, 5, "");
    assert text[..5] == "AAAAA";
    assert text[5..] == "BBBBB";
    assert "" + "AAAAA" == "AAAAA" && "" + "BBBBB" == "BBBBB";
  }

  lemma SplitWords(a: string, b: string, sep: char)
    requires sep !in a && sep !in b
    ensures SplitOn(a + [sep] + b, sep) == [a, b]
  {
    SplitOnCons(a, b, sep);
    SplitOnWord(b, sep);
  }
}
