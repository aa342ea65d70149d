/**
 * The tokeniser of genHistogram: the file text is split on '\n', every line
 * is split on ' ', every piece loses its trailing whitespace (str.rstrip())
 * and the pieces that are then empty are dropped.
 */
module Tokens {

  /**
   * The bytes Python 2's str.isspace() accepts, i.e. what rstrip() removes
   * from a byte string: ' ', \t, \n, \v, \f and \r.
   */
  predicate IsSpace(c: char) {
    var n := c as int;
    (9 <= n <= 13) || n == 32
  }

  /** Python's s.split(sep) for a one-character separator: never empty, keeps empty pieces. */
  function Split(s: string, sep: char): (parts: seq<string>)
    ensures |parts| >= 1
  {
    if s == [] then [[]]
    else
      var rest := Split(s[1..], sep);
      if s[0] == sep then [[]] + rest
      else [[s[0]] + rest[0]] + rest[1..]
  }

  /** sep.join(parts), the inverse of Split. */
  function Join(parts: seq<string>, sep: char): string
    requires |parts| >= 1
  {
    if |parts| == 1 then parts[0] else parts[0] + [sep] + Join(parts[1..], sep)
  }

  /** Python's w.rstrip(): the longest prefix of w that does not end in whitespace. */
  function RStrip(w: string): (r: string)
    ensures |r| <= |w|
  {
    if w != [] && IsSpace(w[|w| - 1]) then RStrip(w[..|w| - 1]) else w
  }

  /** The pieces of a split hold no separator, and only characters of the text. */
  lemma {:induction false} SplitParts(s: string, sep: char)
    ensures forall i :: 0 <= i < |Split(s, sep)| ==> sep !in Split(s, sep)[i]
    ensures forall i, c :: 0 <= i < |Split(s, sep)| && c in Split(s, sep)[i] ==> c in s
  {
    if s != [] {
      var rest := Split(s[1..], sep);
      SplitParts(s[1..], sep);
      assert s == [s[0]] + s[1..];
      if s[0] != sep {
        var parts := [[s[0]] + rest[0]] + rest[1..];
        forall i, c | 0 <= i < |parts| && c in parts[i] ensures c in s {
          if i == 0 {
            assert c == s[0] || c in rest[0];
          } else {
            assert parts[i] == rest[i];
          }
        }
      }
    }
  }

  /** rstrip() removes a suffix of whitespace and leaves no whitespace at the end. */
  lemma {:induction false} RStripFacts(w: string)
    ensures RStrip(w) == w[..|RStrip(w)|]
    ensures RStrip(w) == [] || !IsSpace(RStrip(w)[|RStrip(w)| - 1])
    ensures forall i :: |RStrip(w)| <= i < |w| ==> IsSpace(w[i])
  {
    if w != [] && IsSpace(w[|w| - 1]) {
      RStripFacts(w[..|w| - 1]);
    }
  }

  /** What the tokeniser promises of every token it produces. */
  predicate IsToken(w: string) {
    |w| > 0 && ' ' !in w && '\n' !in w && !IsSpace(w[|w| - 1])
  }

  /** A word after rstrip() that was kept: non-empty and without trailing whitespace. */
  predicate Stripped(w: string) {
    |w| > 0 && !IsSpace(w[|w| - 1])
  }

  /** Each piece without its trailing whitespace, dropping those that are then empty. */
  function KeepWords(pieces: seq<string>): (words: seq<string>)
    ensures |words| <= |pieces|
  {
    if pieces == [] then []
    else
      var w := RStrip(pieces[0]);
      if |w| > 0 then [w] + KeepWords(pieces[1..]) else KeepWords(pieces[1..])
  }

  /** A kept word has only characters of the pieces it came from. */
  lemma {:induction false} KeepWordsChars(pieces: seq<string>, c: char)
    requires forall j :: 0 <= j < |pieces| ==> c !in pieces[j]
    ensures forall i :: 0 <= i < |KeepWords(pieces)| ==> c !in KeepWords(pieces)[i]
  {
    if pieces != [] {
      KeepWordsChars(pieces[1..], c);
      var w := RStrip(pieces[0]);
      RStripFacts(pieces[0]);
      assert c !in w;
    }
  }

  /** Every kept word is non-empty and does not end in whitespace. */
  lemma {:induction false} KeepWordsStripped(pieces: seq<string>)
    ensures forall i :: 0 <= i < |KeepWords(pieces)| ==> Stripped(KeepWords(pieces)[i])
  {
    if pieces != [] {
      KeepWordsStripped(pieces[1..]);
      RStripFacts(pieces[0]);
    }
  }

  /** The words of one line (the comprehension at p02.py:70). */
  function LineWords(line: string): seq<string> {
    KeepWords(Split(line, ' '))
  }

  /** The words of all lines in order, as allWords holds them after the loop over lines[..|lines|]. */
  function WordsOfLines(lines: seq<string>): seq<string> {
    if lines == [] then [] else WordsOfLines(lines[..|lines| - 1]) + LineWords(lines[|lines| - 1])
  }

  lemma WordsOfLinesSnoc(lines: seq<string>, i: nat)
    requires i < |lines|
    ensures WordsOfLines(lines[..i + 1]) == WordsOfLines(lines[..i]) + LineWords(lines[i])
  {
    assert lines[..i + 1][..i] == lines[..i];
  }

  /** All tokens of a file's text. */
  function TokensOf(text: string): seq<string> {
    WordsOfLines(Split(text, '\n'))
  }

  /** The loop of genHistogram that collects allWords line by line. */
  method Tokenize(text: string) returns (allWords: seq<string>)
    ensures allWords == TokensOf(text)
    ensures forall i :: 0 <= i < |allWords| ==> IsToken(allWords[i])
  {
    var lines := Split(text, '\n');
    allWords := [];
    for i := 0 to |lines|
      invariant allWords == WordsOfLines(lines[..i])
    {
      WordsOfLinesSnoc(lines, i);
      allWords := allWords + LineWords(lines[i]);
    }
    assert lines[..|lines|] == lines;
    TokensAreWords(text);
  }

  // ---------------------------------------------------------------------------
  // Properties

  /** Splitting and joining again gives back the text. */
  lemma {:induction false} JoinSplit(s: string, sep: char)
    ensures Join(Split(s, sep), sep) == s
  {
    if s != [] {
      var rest := Split(s[1..], sep);
      JoinSplit(s[1..], sep);
      if s[0] == sep {
        assert ([[]] + rest)[1..] == rest;
      } else {
        var parts := [[s[0]] + rest[0]] + rest[1..];
        if |rest| > 1 {
          assert parts[1..] == rest[1..];
        }
      }
    }
  }

  lemma {:induction false} SplitWithoutSep(w: string, sep: char)
    requires sep !in w
    ensures Split(w, sep) == [w]
  {
    if w != [] {
      SplitWithoutSep(w[1..], sep);
      assert [w[0]] + w[1..] == w;
    }
  }

  lemma {:induction false} SplitAtSep(w: string, sep: char, t: string)
    requires sep !in w
    ensures Split(w + [sep] + t, sep) == [w] + Split(t, sep)
  {
    if w == [] {
      assert w + [sep] + t == [sep] + t;
      assert ([sep] + t)[1..] == t;
    } else {
      assert (w + [sep] + t)[1..] == w[1..] + [sep] + t;
      SplitAtSep(w[1..], sep, t);
      assert [w[0]] + w[1..] == w;
    }
  }

  /** Joining pieces that do not contain the separator and splitting again gives back the pieces. */
  lemma {:induction false} SplitJoin(parts: seq<string>, sep: char)
    requires |parts| >= 1
    requires forall i :: 0 <= i < |parts| ==> sep !in parts[i]
    ensures Split(Join(parts, sep), sep) == parts
  {
    if |parts| == 1 {
      SplitWithoutSep(parts[0], sep);
    } else {
      SplitJoin(parts[1..], sep);
      SplitAtSep(parts[0], sep, Join(parts[1..], sep));
    }
  }

  lemma {:induction false} JoinChars(parts: seq<string>, sep: char, c: char)
    requires |parts| >= 1
    requires c != sep
    requires forall i :: 0 <= i < |parts| ==> c !in parts[i]
    ensures c !in Join(parts, sep)
  {
    if |parts| > 1 {
      JoinChars(parts[1..], sep, c);
    }
  }

  lemma {:induction false} WordsOfLinesAreTokens(lines: seq<string>)
    requires forall i :: 0 <= i < |lines| ==> '\n' !in lines[i]
    ensures forall i :: 0 <= i < |WordsOfLines(lines)| ==> IsToken(WordsOfLines(lines)[i])
  {
    if lines != [] {
      WordsOfLinesAreTokens(lines[..|lines| - 1]);
      var line := lines[|lines| - 1];
      var pieces := Split(line, ' ');
      SplitParts(line, ' ');
      KeepWordsStripped(pieces);
      KeepWordsChars(pieces, ' ');
      KeepWordsChars(pieces, '\n');
    }
  }

  /** Every token is non-empty, holds no ' ' and no '\n', and does not end in whitespace. */
  lemma TokensAreWords(text: string)
    ensures forall i :: 0 <= i < |TokensOf(text)| ==> IsToken(TokensOf(text)[i])
  {
    SplitParts(text, '\n');
    WordsOfLinesAreTokens(Split(text, '\n'));
  }

  lemma {:induction false} KeepTokens(ws: seq<string>)
    requires forall i :: 0 <= i < |ws| ==> IsToken(ws[i])
    ensures KeepWords(ws) == ws
  {
    if ws != [] {
      KeepTokens(ws[1..]);
      assert RStrip(ws[0]) == ws[0];
      assert [ws[0]] + ws[1..] == ws;
    }
  }

  /** Round trip: words that are tokens, written on one line separated by single spaces, tokenise back to themselves. */
  lemma TokenizeJoined(ws: seq<string>)
    requires |ws| >= 1
    requires forall i :: 0 <= i < |ws| ==> IsToken(ws[i])
    ensures TokensOf(Join(ws, ' ')) == ws
  {
    var line := Join(ws, ' ');
    JoinChars(ws, ' ', '\n');
    SplitWithoutSep(line, '\n');
    assert TokensOf(line) == WordsOfLines([line]);
    assert [line][..0] == [];
    SplitJoin(ws, ' ');
    KeepTokens(ws);
  }
}
