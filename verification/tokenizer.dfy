/**
 The tokenizer of the search server (`SplitIntoWords`). Text is split on the space
 character and on nothing else: tabs and newlines are ordinary characters. Runs of
 spaces collapse, and leading or trailing spaces produce no empty words.
 */
module Tokenizer {

  const Space: char := ' '

  /** What the tokenizer produces: a non-empty word without spaces. */
  predicate IsWord(w: string)
  {
    w != [] && Space !in w
  }

  predicate AllWords(ws: seq<string>)
  {
    forall i :: 0 <= i < |ws| ==> IsWord(ws[i])
  }

  /** The pending word, as a list of at most one word: `push_back` only if non-empty. */
  function Flush(word: string): seq<string>
  {
    if word == [] then [] else [word]
  }

  /** The words found when the scan has accumulated `word` and `text` is still unread:
      a space flushes the pending word, any other character extends it, and the end of
      the text flushes it one last time. */
  function Words(word: string, text: string): (words: seq<string>)
    ensures Space !in word ==> AllWords(words)
    decreases |text|
  {
    if text == [] then Flush(word)
    else if text[0] == Space then Flush(word) + Words([], text[1..])
    else Words(word + [text[0]], text[1..])
  }

  /** The words of `text`, in order. */
  function SplitIntoWords(text: string): (words: seq<string>)
    ensures AllWords(words)
  {
    Words([], text)
  }

  /** The characters of `text` other than spaces. */
  function RemoveSpaces(text: string): string
  {
    if text == [] then []
    else if text[0] == Space then RemoveSpaces(text[1..])
    else [text[0]] + RemoveSpaces(text[1..])
  }

  function Concat(ws: seq<string>): string
  {
    if ws == [] then [] else ws[0] + Concat(ws[1..])
  }

  /** The words separated by single spaces. */
  function JoinWords(ws: seq<string>): string
  {
    if ws == [] then []
    else if |ws| == 1 then ws[0]
    else ws[0] + [Space] + JoinWords(ws[1..])
  }

  /** The pending word followed by the words of the rest. */
  lemma ConcatFlush(word: string, ws: seq<string>)
    ensures Concat(Flush(word) + ws) == word + Concat(ws)
  {
    if word == [] {
      assert Flush(word) + ws == ws;
      assert word + Concat(ws) == Concat(ws);
    } else {
      assert ([word] + ws)[1..] == ws;
    }
  }

  /** Concatenating the tokens gives back the input with its spaces removed: no
      character other than a space is lost, moved or invented. */
  lemma SplitKeepsAllButSpaces(text: string)
    ensures Concat(SplitIntoWords(text)) == RemoveSpaces(text)
  {
    WordsKeepAllButSpaces([], text);
  }

  lemma {:induction false} WordsKeepAllButSpaces(word: string, text: string)
    ensures Concat(Words(word, text)) == word + RemoveSpaces(text)
    decreases |text|
  {
    if text == [] {
      ConcatFlush(word, []);
    } else if text[0] == Space {
      WordsKeepAllButSpaces([], text[1..]);
      ConcatFlush(word, Words([], text[1..]));
    } else {
      WordsKeepAllButSpaces(word + [text[0]], text[1..]);
      assert RemoveSpaces(text) == [text[0]] + RemoveSpaces(text[1..]);
      assert (word + [text[0]]) + RemoveSpaces(text[1..]) == word + ([text[0]] + RemoveSpaces(text[1..]));
    }
  }

  /** The tokenizer finds no word exactly when the text is empty or all spaces. */
  lemma SplitEmptyIffBlank(text: string)
    ensures SplitIntoWords(text) == [] <==> forall k :: 0 <= k < |text| ==> text[k] == Space
  {
    WordsEmptyIffBlank([], text);
  }

  lemma {:induction false} WordsEmptyIffBlank(word: string, text: string)
    ensures Words(word, text) == [] <==> word == [] && forall k :: 0 <= k < |text| ==> text[k] == Space
    decreases |text|
  {
    if text == [] {
    } else if text[0] == Space {
      WordsEmptyIffBlank([], text[1..]);
      if forall k :: 0 <= k < |text[1..]| ==> text[1..][k] == Space {
        forall k | 0 <= k < |text|
          ensures text[k] == Space
        {
          if k > 0 {
            assert text[k] == text[1..][k - 1];
          }
        }
      }
    } else {
      WordsEmptyIffBlank(word + [text[0]], text[1..]);
    }
  }

  /** Reading characters other than spaces only extends the pending word. */
  lemma {:induction false} WordsThroughWord(word: string, w: string, rest: string)
    requires Space !in w
    ensures Words(word, w + rest) == Words(word + w, rest)
    decreases |w|
  {
    if w == [] {
      assert w + rest == rest;
      assert word + w == word;
    } else {
      var t := w + rest;
      assert t[0] == w[0];
      assert t[1..] == w[1..] + rest;
      WordsThroughWord(word + [w[0]], w[1..], rest);
      assert (word + [w[0]]) + w[1..] == word + w;
    }
  }

  /** Splitting the words joined with single spaces gives the words back. */
  lemma {:induction false} SplitJoinRoundTrip(ws: seq<string>)
    requires AllWords(ws)
    ensures SplitIntoWords(JoinWords(ws)) == ws
    decreases |ws|
  {
    if ws == [] {
    } else if |ws| == 1 {
      WordsThroughWord([], ws[0], []);
      assert ws[0] + [] == ws[0];
      assert [] + ws[0] == ws[0];
    } else {
      var w, rest := ws[0], JoinWords(ws[1..]);
      assert w + [Space] + rest == w + ([Space] + rest);
      WordsThroughWord([], w, [Space] + rest);
      assert [] + w == w;
      assert ([Space] + rest)[1..] == rest;
      SplitJoinRoundTrip(ws[1..]);
    }
  }

  /** Splitting two texts joined by a space gives the words of one, then the other. */
  lemma SplitAcrossSpace(a: string, b: string)
    ensures SplitIntoWords(a + [Space] + b) == SplitIntoWords(a) + SplitIntoWords(b)
  {
    WordsAcrossSpace([], a, b);
  }

  lemma {:induction false} WordsAcrossSpace(word: string, a: string, b: string)
    ensures Words(word, a + [Space] + b) == Words(word, a) + Words([], b)
    decreases |a|
  {
    var t := a + [Space] + b;
    if a == [] {
      assert t[0] == Space;
      assert t[1..] == b;
    } else {
      assert t[0] == a[0];
      assert t[1..] == a[1..] + [Space] + b;
      if a[0] == Space {
        WordsAcrossSpace([], a[1..], b);
        assert Flush(word) + (Words([], a[1..]) + Words([], b))
            == (Flush(word) + Words([], a[1..])) + Words([], b);
      } else {
        WordsAcrossSpace(word + [a[0]], a[1..], b);
      }
    }
  }

  /** What the scan of `text` has established after `i` characters: the words found
      so far, followed by the words of the pending word and the unread text, are the
      words of the whole text. */
  predicate ScanInvariant(text: string, i: nat, words: seq<string>, word: string)
    requires i <= |text|
  {
    words + Words(word, text[i..]) == SplitIntoWords(text)
  }

  /** At a space the pending word, if any, is flushed. */
  lemma ScanMeetsSpace(text: string, i: nat, words: seq<string>, word: string)
    requires i < |text| && text[i] == Space
    requires ScanInvariant(text, i, words, word)
    ensures ScanInvariant(text, i + 1, words + Flush(word), [])
  {
    assert text[i..][1..] == text[i + 1..];
    assert words + (Flush(word) + Words([], text[i + 1..]))
        == (words + Flush(word)) + Words([], text[i + 1..]);
  }

  /** Any other character extends the pending word. */
  lemma ScanMeetsLetter(text: string, i: nat, words: seq<string>, word: string)
    requires i < |text| && text[i] != Space
    requires ScanInvariant(text, i, words, word)
    ensures ScanInvariant(text, i + 1, words, word + [text[i]])
  {
    assert text[i..][1..] == text[i + 1..];
  }

  /** The character loop of the source: a word is accumulated until a space or the
      end of the text flushes it. */
  method SplitIntoWordsScan(text: string) returns (words: seq<string>)
    ensures words == SplitIntoWords(text)
  {
    words := [];
    var word: string := [];
    var i := 0;
    assert text[i..] == text;
    while i < |text|
      invariant 0 <= i <= |text|
      invariant ScanInvariant(text, i, words, word)
    {
      var c := text[i];
      if c == Space {
        ScanMeetsSpace(text, i, words, word);
        if word != [] {
          words := words + [word];
          word := [];
        }
      } else {
        ScanMeetsLetter(text, i, words, word);
        word := word + [c];
      }
      i := i + 1;
    }
    assert text[i..] == [];
    if word != [] {
      words := words + [word];
    }
  }
}
