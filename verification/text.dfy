/** The string operations the command handlers rely on, with Python's semantics:
    `str.split()` on runs of whitespace with a `maxsplit` bound, `str.split(sep)` on a
    single separator character, and `sep.join(parts)`. */
module Text {

  /** Python's `str.isspace` for one character: the characters `str.split()` splits on. */
  predicate IsSpace(c: char) {
    || c == ' '
    || '\t' <= c <= '\r'
    || '\U{1C}' <= c <= '\U{1F}'
    || c == '\U{85}'
    || c == '\U{A0}'
    || c == '\U{1680}'
    || '\U{2000}' <= c <= '\U{200A}'
    || c == '\U{2028}'
    || c == '\U{2029}'
    || c == '\U{202F}'
    || c == '\U{205F}'
    || c == '\U{3000}'
  }

  predicate NoSpace(w: string) {
    forall i :: 0 <= i < |w| ==> !IsSpace(w[i])
  }

  /** Gluing whitespace-free strings gives a whitespace-free string. */
  lemma NoSpaceConcat(a: string, b: string)
    requires NoSpace(a) && NoSpace(b)
    ensures NoSpace(a + b)
  {
    forall i | 0 <= i < |a + b| ensures !IsSpace((a + b)[i]) {
      if i >= |a| {
        assert (a + b)[i] == b[i - |a|];
      }
    }
  }

  /** `s` with its leading whitespace dropped. */
  function SkipSpace(s: string): (t: string)
    ensures |t| <= |s|
    ensures t == [] || !IsSpace(t[0])
  {
    if |s| > 0 && IsSpace(s[0]) then SkipSpace(s[1..]) else s
  }

  /** The length of the run of non-whitespace characters that starts `s`. */
  function WordLen(s: string): (k: nat)
    ensures k <= |s|
    ensures NoSpace(s[..k])
    ensures k < |s| ==> IsSpace(s[k])
  {
    if |s| > 0 && !IsSpace(s[0]) then 1 + WordLen(s[1..]) else 0
  }

  /** Python's `s.split(maxsplit=n)`: up to `n` words, then the rest of the string with
      its leading whitespace removed (its trailing whitespace kept) as one final part. */
  function Split(s: string, maxsplit: nat): (parts: seq<string>)
    ensures |parts| <= maxsplit + 1
    ensures forall i :: 0 <= i < |parts| ==> |parts[i]| > 0 && !IsSpace(parts[i][0])
    ensures forall i :: 0 <= i < |parts| && i < maxsplit ==> NoSpace(parts[i])
    decreases maxsplit
  {
    var t := SkipSpace(s);
    if t == [] then []
    else if maxsplit == 0 then [t]
    else
      var k := WordLen(t);
      var rest := Split(t[k..], maxsplit - 1);
      var parts := [t[..k]] + rest;
      assert forall i :: 1 <= i < |parts| ==> parts[i] == rest[i - 1];
      parts
  }

  /** The number of words of `s`, counted character by character: a word starts at each
      non-whitespace character that is not preceded by one. */
  function WordsFrom(s: string, inWord: bool): (n: nat)
    ensures n <= |s|
  {
    if |s| == 0 then 0
    else if IsSpace(s[0]) then WordsFrom(s[1..], false)
    else (if inWord then 0 else 1) + WordsFrom(s[1..], true)
  }

  function WordCount(s: string): (n: nat) {
    WordsFrom(s, false)
  }

  function Min(a: int, b: int): (m: int)
    ensures m <= a && m <= b && (m == a || m == b)
  {
    if a <= b then a else b
  }

  lemma {:induction false} SkipSpaceWords(s: string)
    ensures WordCount(SkipSpace(s)) == WordCount(s)
  {
    if |s| > 0 && IsSpace(s[0]) {
      SkipSpaceWords(s[1..]);
    }
  }

  /** Counting across the first word of `s`. */
  lemma {:induction false} WordRun(s: string, inWord: bool)
    ensures WordsFrom(s, inWord)
         == (if !inWord && WordLen(s) > 0 then 1 else 0)
            + WordsFrom(s[WordLen(s)..], inWord || WordLen(s) > 0)
  {
    if |s| > 0 && !IsSpace(s[0]) {
      WordRun(s[1..], true);
      assert s[1..][WordLen(s[1..])..] == s[WordLen(s)..];
    }
  }

  /** `Split` stops at `maxsplit + 1` parts and otherwise yields one part per word. */
  lemma {:induction false} SplitCount(s: string, maxsplit: nat)
    ensures |Split(s, maxsplit)| == Min(WordCount(s), maxsplit + 1)
    decreases maxsplit
  {
    var t := SkipSpace(s);
    SkipSpaceWords(s);
    if t != [] {
      var k := WordLen(t);
      WordRun(t, false);
      var rest := t[k..];
      assert WordsFrom(rest, true) == WordsFrom(rest, false);
      if maxsplit > 0 {
        SplitCount(rest, maxsplit - 1);
      }
    }
  }

  /** Leading whitespace is skipped. */
  lemma SkipOneSpace(s: string)
    requires |s| > 0 && !IsSpace(s[0])
    ensures SkipSpace(" " + s) == s
  {
    assert (" " + s)[1..] == s;
  }

  /** Splitting two whitespace-separated tokens with `maxsplit = 1` gives them back. */
  lemma {:induction false} SplitTwo(a: string, b: string)
    requires |a| > 0 && NoSpace(a)
    requires |b| > 0 && !IsSpace(b[0])
    ensures Split(a + " " + b, 1) == [a, b]
  {
    var s := a + " " + b;
    assert s[0] == a[0];
    assert SkipSpace(s) == s;
    WordOf(a, " " + b);
    assert s[|a|..] == " " + b;
    SkipOneSpace(b);
    assert Split(" " + b, 0) == [b];
    assert WordLen(s) == |a| && s[..|a|] == a;
    assert Split(s, 1) == [s[..|a|]] + Split(s[|a|..], 0);
  }

  /** Splitting three whitespace-separated tokens with `maxsplit = 2` gives them back. */
  lemma {:induction false} SplitThree(a: string, b: string, c: string)
    requires |a| > 0 && NoSpace(a)
    requires |b| > 0 && NoSpace(b)
    requires |c| > 0 && !IsSpace(c[0])
    ensures Split(a + " " + b + " " + c, 2) == [a, b, c]
  {
    assert a + " " + b + " " + c == "" + a + (" " + b + (" " + c));
    SplitSpaced("", a, " ", b, " ", c);
  }

  /** A word followed by whitespace is exactly the first run. */
  lemma {:induction false} WordOf(w: string, rest: string)
    requires NoSpace(w)
    requires |rest| > 0 && IsSpace(rest[0])
    ensures WordLen(w + rest) == |w|
    ensures (w + rest)[..|w|] == w
  {
    if |w| > 0 {
      assert (w + rest)[1..] == w[1..] + rest;
      WordOf(w[1..], rest);
    }
  }

  predicate AllSpace(ws: string) {
    forall i :: 0 <= i < |ws| ==> IsSpace(ws[i])
  }

  /** `SkipSpace` drops exactly the leading whitespace. */
  lemma {:induction false} SkipSpacePrefix(ws: string, t: string)
    requires AllSpace(ws)
    requires t == [] || !IsSpace(t[0])
    ensures SkipSpace(ws + t) == t
  {
    if |ws| > 0 {
      assert (ws + t)[1..] == ws[1..] + t;
      SkipSpacePrefix(ws[1..], t);
    }
  }

  /** A word followed by nothing or by whitespace is the first run. */
  lemma {:induction false} WordLenOf(w: string, rest: string)
    requires NoSpace(w)
    requires rest == [] || IsSpace(rest[0])
    ensures WordLen(w + rest) == |w|
  {
    if |w| > 0 {
      assert (w + rest)[1..] == w[1..] + rest;
      WordLenOf(w[1..], rest);
    } else {
      assert w + rest == rest;
    }
  }

  /** Each split takes off the leading whitespace and one word; whatever follows the
      word, its whitespace included, is split further. */
  lemma SplitWord(ws: string, w: string, rest: string, n: nat)
    requires AllSpace(ws)
    requires |w| > 0 && NoSpace(w)
    requires rest == [] || IsSpace(rest[0])
    ensures Split(ws + w + rest, n + 1) == [w] + Split(rest, n)
  {
    var t := w + rest;
    assert ws + w + rest == ws + t;
    assert t[0] == w[0];
    SkipSpacePrefix(ws, t);
    WordLenOf(w, rest);
    assert t[..|w|] == w && t[|w|..] == rest;
  }

  /** With no splits left, the part is the rest of the string without its leading
      whitespace, trailing whitespace kept. */
  lemma SplitRest(ws: string, t: string)
    requires AllSpace(ws)
    requires |t| > 0 && !IsSpace(t[0])
    ensures Split(ws + t, 0) == [t]
  {
    SkipSpacePrefix(ws, t);
  }

  /** Only whitespace left gives no part at all. */
  lemma SplitBlank(ws: string, n: nat)
    requires AllSpace(ws)
    ensures Split(ws, n) == []
  {
    SkipSpacePrefix(ws, []);
    assert ws + [] == ws;
  }

  /** Two words and a rest, with any whitespace before and between them, split with
      `maxsplit = 2` into the two words and the rest. */
  lemma SplitSpaced(ws0: string, a: string, ws1: string, b: string, ws2: string, c: string)
    requires AllSpace(ws0) && |ws1| > 0 && AllSpace(ws1) && |ws2| > 0 && AllSpace(ws2)
    requires |a| > 0 && NoSpace(a) && |b| > 0 && NoSpace(b)
    requires |c| > 0 && !IsSpace(c[0])
    ensures Split(ws0 + a + (ws1 + b + (ws2 + c)), 2) == [a, b, c]
  {
    var tail := ws2 + c;
    var rest := ws1 + b + tail;
    assert rest[0] == ws1[0] && tail[0] == ws2[0];
    SplitRest(ws2, c);
    SplitWord(ws1, b, tail, 0);
    SplitWord(ws0, a, rest, 1);
  }

  /** Python's `sep.join(parts)`. */
  function Join(parts: seq<string>, sep: string): (s: string) {
    if |parts| == 0 then []
    else if |parts| == 1 then parts[0]
    else parts[0] + sep + Join(parts[1..], sep)
  }

  /** Python's `s.split(c)` for a one-character separator: every occurrence of `c`
      separates two parts, so empty parts are kept. */
  function SplitOn(s: string, c: char): (parts: seq<string>)
    ensures |parts| > 0
    ensures SepFree(parts, c)
  {
    if |s| == 0 then [[]]
    else
      var rest := SplitOn(s[1..], c);
      if s[0] == c then [[]] + rest
      else
        var parts := [[s[0]] + rest[0]] + rest[1..];
        assert c !in [s[0]] + rest[0];
        assert forall i :: 1 <= i < |parts| ==> parts[i] == rest[i];
        parts
  }

  /** `s.split(c)` has one more part than `s` has occurrences of `c`. */
  lemma {:induction false} SplitOnCount(s: string, c: char)
    ensures |SplitOn(s, c)| == multiset(s)[c] + 1
  {
    if |s| > 0 {
      SplitOnCount(s[1..], c);
      assert s == [s[0]] + s[1..];
    }
  }

  lemma JoinHead(x: string, parts: seq<string>, sep: string)
    requires |parts| > 0
    ensures Join([x + parts[0]] + parts[1..], sep) == x + Join(parts, sep)
  {
    var ps := [x + parts[0]] + parts[1..];
    assert ps[1..] == parts[1..];
  }

  /** Joining the parts of a split with the separator restores the string. */
  lemma {:induction false} JoinSplitOn(s: string, c: char)
    ensures Join(SplitOn(s, c), [c]) == s
  {
    if |s| > 0 {
      var rest := SplitOn(s[1..], c);
      JoinSplitOn(s[1..], c);
      if s[0] == c {
        assert ([[]] + rest)[1..] == rest;
        assert s == [c] + s[1..];
      } else {
        JoinHead([s[0]], rest, [c]);
        assert s == [s[0]] + s[1..];
      }
    }
  }

  lemma SplitOnCons(x: char, s: string, c: char)
    requires x != c
    ensures SplitOn([x] + s, c) == [[x] + SplitOn(s, c)[0]] + SplitOn(s, c)[1..]
  {
    assert ([x] + s)[1..] == s;
  }

  lemma SplitOnSep(s: string, c: char)
    ensures SplitOn([c] + s, c) == [[]] + SplitOn(s, c)
  {
    assert ([c] + s)[1..] == s;
  }

  /** One step of `SplitOnJoin`: a non-empty first part loses its first character. */
  lemma SplitOnJoinStep(parts: seq<string>, tail: seq<string>, c: char)
    requires |parts| > 0 && |parts[0]| > 0 && c !in parts[0]
    requires tail == [parts[0][1..]] + parts[1..]
    requires SplitOn(Join(tail, [c]), c) == tail
    ensures SplitOn(Join(parts, [c]), c) == parts
  {
    var p := parts[0];
    assert [p[0]] + tail[0] == p;
    assert tail[1..] == parts[1..];
    assert [p] + parts[1..] == parts;
    JoinHead([p[0]], tail, [c]);
    assert p[0] != c by { assert p[0] in p; }
    SplitOnCons(p[0], Join(tail, [c]), c);
  }

  /** None of `parts` contains `c`. */
  predicate SepFree(parts: seq<string>, c: char) {
    forall i :: 0 <= i < |parts| ==> c !in parts[i]
  }

  /** Splitting the join of separator-free parts gives the parts back. */
  lemma {:induction false} SplitOnJoin(parts: seq<string>, c: char)
    requires |parts| > 0
    requires SepFree(parts, c)
    ensures SplitOn(Join(parts, [c]), c) == parts
    decreases |parts|, |parts[0]|
  {
    var p := parts[0];
    if |p| > 0 {
      var tail := [p[1..]] + parts[1..];
      assert c !in p[1..] by {
        assert forall x :: x in p[1..] ==> x in p;
      }
      assert SepFree(tail, c) by {
        assert forall i :: 1 <= i < |tail| ==> tail[i] == parts[i];
      }
      SplitOnJoin(tail, c);
      SplitOnJoinStep(parts, tail, c);
    } else if |parts| > 1 {
      assert SepFree(parts[1..], c) by {
        assert forall i :: 0 <= i < |parts| - 1 ==> parts[1..][i] == parts[i + 1];
      }
      SplitOnJoin(parts[1..], c);
      assert Join(parts, [c]) == [c] + Join(parts[1..], [c]);
      SplitOnSep(Join(parts[1..], [c]), c);
      assert [[]] + parts[1..] == parts;
    }
  }
}
