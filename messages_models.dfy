/** server/src/messages/models.py: the `content_ellipsis` preview of a message,
    built on Python's `str.split()` (runs of whitespace, ends trimmed) and
    `" ".join`. */
module MessagesModels {
  import opened Seqs

  /** Python's `str.isspace` for one code point. */
  predicate IsSpace(c: char) {
    || ('\U{9}' <= c <= '\U{d}') || ('\U{1c}' <= c <= '\U{20}')
    || c == '\U{85}' || c == '\U{a0}' || c == '\U{1680}'
    || ('\U{2000}' <= c <= '\U{200a}') || c == '\U{2028}' || c == '\U{2029}'
    || c == '\U{202f}' || c == '\U{205f}' || c == '\U{3000}'
  }

  /** A piece `str.split()` can return: non-empty, no whitespace. */
  predicate IsWord(w: string) {
    |w| > 0 && forall i :: 0 <= i < |w| ==> !IsSpace(w[i])
  }

  /** Length of the word at the front of `s`. */
  function WordLength(s: string): (n: nat)
    requires |s| > 0 && !IsSpace(s[0])
    ensures 0 < n <= |s| && IsWord(s[..n])
    ensures n == |s| || IsSpace(s[n])
  {
    if |s| == 1 || IsSpace(s[1]) then 1
    else
      var n := 1 + WordLength(s[1..]);
      assert s[..n] == [s[0]] + s[1..][..n - 1];
      n
  }

  /** `s.split()`. */
  function Words(s: string): (r: seq<string>)
    ensures forall w :: w in r ==> IsWord(w)
  {
    if |s| == 0 then []
    else if IsSpace(s[0]) then Words(s[1..])
    else
      var n := WordLength(s);
      [s[..n]] + Words(s[n..])
  }

  /** `" ".join(words)`. */
  function Join(words: seq<string>): (r: string)
    ensures |words| > 0 ==> words[0] <= r
    ensures |words| > 1 ==> |r| > |words[0]| && r[|words[0]|] == ' '
  {
    if |words| == 0 then []
    else if |words| == 1 then words[0]
    else words[0] + " " + Join(words[1..])
  }

  /** The preview shown for a message: short content as is, otherwise its
      first five words joined by single spaces and followed by "...". */
  function ContentEllipsis(content: string): (r: string)
    ensures |content| < 100 ==> r == content
    ensures |content| >= 100 ==> |r| >= 3 && r[|r| - 3..] == "..."
  {
    if |content| < 100 then content
    else Join(Words(content)[..Min(5, |Words(content)|)]) + "..."
  }

  lemma {:induction false} WordsOfWordThen(w: string, rest: string)
    requires IsWord(w)
    requires rest == [] || IsSpace(rest[0])
    ensures Words(w + rest) == [w] + Words(rest)
  {
    var s := w + rest;
    assert s[0] == w[0];
    WordLengthOf(w, rest);
    assert s[..|w|] == w && s[|w|..] == rest;
  }

  lemma {:induction false} WordLengthOf(w: string, rest: string)
    requires IsWord(w)
    requires rest == [] || IsSpace(rest[0])
    ensures WordLength(w + rest) == |w|
    decreases |w|
  {
    var s := w + rest;
    if |w| > 1 {
      assert s[1..] == w[1..] + rest;
      WordLengthOf(w[1..], rest);
    }
  }

  /** Splitting undoes joining: `" ".join(ws).split() == ws` for words. */
  lemma {:induction false} WordsOfJoin(ws: seq<string>)
    requires forall w :: w in ws ==> IsWord(w)
    ensures Words(Join(ws)) == ws
    decreases |ws|
  {
    if |ws| == 1 {
      WordsOfWordThen(ws[0], []);
      assert ws[0] + [] == ws[0];
    } else if |ws| > 1 {
      var tail := Join(ws[1..]);
      assert ws[1..][0] in ws;
      WordsOfJoin(ws[1..]);
      assert ws[0] + " " + tail == ws[0] + (" " + tail);
      WordsOfWordThen(ws[0], " " + tail);
      assert (" " + tail)[1..] == tail;
    }
  }

  /** The text before "..." in a truncated preview. */
  function PreviewText(content: string): (r: string)
    requires |content| >= 100
    ensures ContentEllipsis(content) == r + "..."
  {
    Join(Words(content)[..Min(5, |Words(content)|)])
  }

  /** A truncated preview reads back as exactly the first five words of the
      content (all of them when there are fewer). */
  lemma PreviewWords(content: string)
    requires |content| >= 100
    ensures Words(PreviewText(content)) == Words(content)[..Min(5, |Words(content)|)]
  {
    var ws := Words(content)[..Min(5, |Words(content)|)];
    assert forall w :: w in ws ==> w in Words(content);
    WordsOfJoin(ws);
  }

  /** Long content with fewer than five words keeps every word; only its
      whitespace is collapsed to single spaces. */
  lemma FewWordsKept(content: string)
    requires |content| >= 100 && |Words(content)| < 5
    ensures Words(PreviewText(content)) == Words(content)
  {
    PreviewWords(content);
  }
}
