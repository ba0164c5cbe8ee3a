/**
  The handful of Python `str` operations the scripts rely on, written out over
  `string` (a `seq<char>`): `split()` on whitespace, `split(c)` on one character,
  `sep.join`, `lstrip(c)`, `rstrip(c)` and the line splitting of `readlines()`.
  Each comes with the inverse or reference that pins down what it computes.
 */
module Text {

  /** Python's `str.isspace()` for one character: the separators of `split()`. */
  predicate IsSpace(c: char) {
    || c == ' '
    || '\t' <= c <= '\r'
    || '\U{1c}' <= c <= '\U{1f}'
    || c == '\U{85}' || c == '\U{a0}' || c == '\U{1680}'
    || '\U{2000}' <= c <= '\U{200a}'
    || c == '\U{2028}' || c == '\U{2029}' || c == '\U{202f}' || c == '\U{205f}' || c == '\U{3000}'
  }

  predicate NoSpace(s: string) {
    forall i :: 0 <= i < |s| ==> !IsSpace(s[i])
  }

  /** A field as `split()` returns it: non-empty and free of whitespace. */
  predicate IsWord(w: string) {
    w != [] && NoSpace(w)
  }

  /** Length of the run of non-whitespace characters at the start of `s`. */
  function TokenLen(s: string): (n: nat)
    ensures n <= |s|
    ensures NoSpace(s[..n])
    ensures n < |s| ==> IsSpace(s[n])
  {
    if s == [] || IsSpace(s[0]) then 0
    else
      var m := TokenLen(s[1..]);
      assert s[..1 + m] == [s[0]] + s[1..][..m];
      1 + m
  }

  /** Python's `s.split()`: the maximal whitespace-free runs of `s`, in order. */
  function Words(s: string): (ws: seq<string>)
    ensures forall i :: 0 <= i < |ws| ==> IsWord(ws[i])
    decreases |s|
  {
    if s == [] then []
    else if IsSpace(s[0]) then Words(s[1..])
    else
      var n := TokenLen(s);
      [s[..n]] + Words(s[n..])
  }

  /** Python's `sep.join(parts)`. */
  function Join(parts: seq<string>, sep: string): string
    decreases |parts|
  {
    if |parts| == 0 then ""
    else if |parts| == 1 then parts[0]
    else parts[0] + sep + Join(parts[1..], sep)
  }

  /** Python's `''.join(parts)`. */
  function Concat(parts: seq<string>): string
    decreases |parts|
  {
    if parts == [] then "" else parts[0] + Concat(parts[1..])
  }

  /** Position of the first `c` in `s` (Python's `s.index(c)`). */
  function IndexOf(s: string, c: char): (i: nat)
    requires c in s
    ensures i < |s| && s[i] == c
    ensures c !in s[..i]
  {
    if s[0] == c then 0
    else
      var j := IndexOf(s[1..], c);
      assert s[..1 + j] == [s[0]] + s[1..][..j];
      1 + j
  }

  /** Python's `s.split(c)`: the pieces between occurrences of `c`; always at least one. */
  function Split(s: string, c: char): (parts: seq<string>)
    ensures |parts| >= 1
    ensures forall i :: 0 <= i < |parts| ==> c !in parts[i]
    decreases |s|
  {
    if c !in s then [s]
    else
      var i := IndexOf(s, c);
      [s[..i]] + Split(s[i + 1..], c)
  }

  lemma JoinThree(a: string, b: string, c: string, sep: string)
    ensures Join([a, b, c], sep) == a + sep + b + sep + c
  {
    assert [a, b, c][1..] == [b, c];
    assert [b, c][1..] == [c];
    assert Join([b, c], sep) == b + sep + c;
    assert a + sep + (b + sep + c) == a + sep + b + sep + c;
  }

  /** `s.split(c)` has a second piece exactly when `c` occurs in `s`. */
  lemma SplitCount(s: string, c: char)
    ensures |Split(s, c)| >= 2 <==> c in s
  {
  }

  /** Python's `s.lstrip(c)` for a single character `c`. */
  function LStrip(s: string, c: char): string {
    if s != [] && s[0] == c then LStrip(s[1..], c) else s
  }

  /** Python's `s.rstrip(c)` for a single character `c`. */
  function RStrip(s: string, c: char): string {
    if s != [] && s[|s| - 1] == c then RStrip(s[..|s| - 1], c) else s
  }

  /** `lstrip` removes the longest prefix made only of `c`: what is left is a suffix that does not start with `c`. */
  lemma {:induction false} LStripSpec(s: string, c: char)
    ensures var r := LStrip(s, c);
      && |r| <= |s| && r == s[|s| - |r|..]
      && (forall i :: 0 <= i < |s| - |r| ==> s[i] == c)
      && (r == [] || r[0] != c)
    decreases |s|
  {
    if s != [] && s[0] == c {
      LStripSpec(s[1..], c);
    }
  }

  /** `rstrip` removes the longest suffix made only of `c`: what is left is a prefix that does not end with `c`. */
  lemma {:induction false} RStripSpec(s: string, c: char)
    ensures var r := RStrip(s, c);
      && |r| <= |s| && r == s[..|r|]
      && (forall i :: |r| <= i < |s| ==> s[i] == c)
      && (r == [] || r[|r| - 1] != c)
    decreases |s|
  {
    if s != [] && s[|s| - 1] == c {
      RStripSpec(s[..|s| - 1], c);
    }
  }

  /** `s` with every `c` removed. */
  function Without(s: string, c: char): (r: string)
    ensures c !in r
    ensures |r| <= |s|
  {
    if s == [] then []
    else (if s[0] == c then [] else [s[0]]) + Without(s[1..], c)
  }

  /** A line as `readlines()` yields it before the last one: text ending in its only newline. */
  predicate IsLine(l: string) {
    |l| > 0 && l[|l| - 1] == '\n' && '\n' !in l[..|l| - 1]
  }

  /** No newline except possibly as the last character. */
  predicate NoInnerNewline(l: string) {
    forall j :: 0 <= j < |l| - 1 ==> l[j] != '\n'
  }

  /**
    Python's `f.readlines()` over a file's text that holds no `\r`: pieces ending in `\n`,
    the last one possibly unterminated. Universal-newline translation is not modelled.
  */
  function ReadLines(text: string): (ls: seq<string>)
    ensures forall i :: 0 <= i < |ls| ==> ls[i] != [] && NoInnerNewline(ls[i])
    ensures forall i :: 0 <= i < |ls| - 1 ==> IsLine(ls[i])
    decreases |text|
  {
    if text == [] then []
    else if '\n' !in text then [text]
    else
      var i := IndexOf(text, '\n');
      [text[..i + 1]] + ReadLines(text[i + 1..])
  }

  lemma {:induction false} ConcatSnoc(parts: seq<string>, x: string)
    ensures Concat(parts + [x]) == Concat(parts) + x
    decreases |parts|
  {
    if parts == [] {
      assert [] + [x] == [x];
    } else {
      assert (parts + [x])[1..] == parts[1..] + [x];
      ConcatSnoc(parts[1..], x);
    }
  }

  lemma {:induction false} ConcatAppend(a: seq<string>, b: seq<string>)
    ensures Concat(a + b) == Concat(a) + Concat(b)
    decreases |a|
  {
    if a == [] {
      assert a + b == b;
    } else {
      assert (a + b)[1..] == a[1..] + b;
      ConcatAppend(a[1..], b);
    }
  }

  lemma {:induction false} TokenLenOfWord(w: string, t: string)
    requires NoSpace(w)
    requires t == [] || IsSpace(t[0])
    ensures TokenLen(w + t) == |w|
    decreases |w|
  {
    if w == [] {
      assert w + t == t;
    } else {
      assert (w + t)[1..] == w[1..] + t;
      TokenLenOfWord(w[1..], t);
    }
  }

  predicate AllSpace(t: string) {
    forall i :: 0 <= i < |t| ==> IsSpace(t[i])
  }

  lemma {:induction false} WordsOfSpace(t: string)
    requires AllSpace(t)
    ensures Words(t) == []
    decreases |t|
  {
    if t != [] {
      WordsOfSpace(t[1..]);
    }
  }

  /** A word followed by whitespace (or nothing) is split off as the first word. */
  lemma WordsOfWordThen(w: string, rest: string)
    requires IsWord(w) && (rest == [] || IsSpace(rest[0]))
    ensures Words(w + rest) == [w] + Words(rest)
  {
    var s := w + rest;
    TokenLenOfWord(w, rest);
    assert s[..|w|] == w;
    assert s[|w|..] == rest;
  }

  /**
    `split()` undoes a join with one whitespace character, whatever whitespace
    (such as the line's newline) follows: the columns of a table row come back unchanged.
   */
  lemma {:induction false} WordsOfJoin(ws: seq<string>, c: char, t: string)
    requires IsSpace(c) && AllSpace(t)
    requires forall i :: 0 <= i < |ws| ==> IsWord(ws[i])
    ensures Words(Join(ws, [c]) + t) == ws
    decreases |ws|
  {
    if |ws| == 0 {
      assert Join(ws, [c]) + t == t;
      WordsOfSpace(t);
    } else if |ws| == 1 {
      assert Join(ws, [c]) + t == ws[0] + t;
      WordsOfSpace(t);
      if t != [] {
        assert IsSpace(t[0]);
      }
      WordsOfWordThen(ws[0], t);
    } else {
      var rest := Join(ws[1..], [c]) + t;
      assert Join(ws, [c]) + t == ws[0] + ([c] + rest);
      WordsOfWordThen(ws[0], [c] + rest);
      assert ([c] + rest)[1..] == rest;
      WordsOfJoin(ws[1..], c, t);
      assert ws == [ws[0]] + ws[1..];
    }
  }

  lemma {:induction false} IndexOfPrefix(a: string, c: char, b: string)
    requires c !in a
    ensures IndexOf(a + [c] + b, c) == |a|
    decreases |a|
  {
    if a != [] {
      assert (a + [c] + b)[1..] == a[1..] + [c] + b;
      IndexOfPrefix(a[1..], c, b);
    }
  }

  lemma {:induction false} IndexOfFirst(s: string, c: char, i: nat)
    requires i < |s| && s[i] == c && c !in s[..i]
    ensures IndexOf(s, c) == i
    decreases i
  {
    if i > 0 {
      assert s[0] in s[..i];
      assert s[1..][..i - 1] == s[..i][1..];
      IndexOfFirst(s[1..], c, i - 1);
    }
  }

  /** Splitting at a first separator: the first piece is what precedes the first `c`. */
  lemma SplitOfSep(a: string, c: char, rest: string)
    requires c !in a
    ensures Split(a + [c] + rest, c) == [a] + Split(rest, c)
  {
    var s := a + [c] + rest;
    IndexOfPrefix(a, c, rest);
    assert s[..|a|] == a;
    assert s[|a| + 1..] == rest;
  }

  lemma {:induction false} SplitSnoc(a: string, c: char, b: string)
    requires c !in b
    ensures Split(a + [c] + b, c) == Split(a, c) + [b]
    decreases |a|
  {
    if c in a {
      var i := IndexOf(a, c);
      var p, q := a[..i], a[i + 1..];
      SplitAround(a, i);
      assert a + [c] + b == p + [c] + (q + [c] + b);
      SplitOfSep(p, c, q + [c] + b);
      SplitSnoc(q, c, b);
      SplitOfSep(p, c, q);
      assert [p] + (Split(q, c) + [b]) == ([p] + Split(q, c)) + [b];
    } else {
      SplitOfSep(a, c, b);
    }
  }

  /** Python's `path.split('/')[-1]`: the last component of a path. */
  function BaseName(path: string): (base: string)
    ensures '/' !in base
  {
    var parts := Split(path, '/');
    parts[|parts| - 1]
  }

  /** The base name of `dir/base` is `base`, and a path without `/` is its own base name. */
  lemma BaseNameOf(dir: string, base: string)
    requires '/' !in base
    ensures BaseName(dir + "/" + base) == base
    ensures BaseName(base) == base
  {
    SplitSnoc(dir, '/', base);
  }

  /** Joining the pieces of `s.split(c)` with `c` gives back `s`. */
  lemma {:induction false} JoinOfSplit(s: string, c: char)
    ensures Join(Split(s, c), [c]) == s
    decreases |s|
  {
    if c in s {
      var i := IndexOf(s, c);
      var rest := Split(s[i + 1..], c);
      JoinOfSplit(s[i + 1..], c);
      assert ([s[..i]] + rest)[1..] == rest;
      assert s == s[..i] + [c] + s[i + 1..];
    }
  }

  /** Splitting a join on `c` gives back the pieces, when none of them contains `c`. */
  lemma {:induction false} SplitOfJoin(parts: seq<string>, c: char)
    requires |parts| >= 1
    requires forall i :: 0 <= i < |parts| ==> c !in parts[i]
    ensures Split(Join(parts, [c]), c) == parts
    decreases |parts|
  {
    if |parts| > 1 {
      var a, rest := parts[0], Join(parts[1..], [c]);
      assert Join(parts, [c]) == a + [c] + rest;
      SplitOfSep(a, c, rest);
      SplitOfJoin(parts[1..], c);
      assert parts == [a] + parts[1..];
    }
  }


  lemma {:induction false} WithoutAppend(a: string, b: string, c: char)
    ensures Without(a + b, c) == Without(a, c) + Without(b, c)
    decreases |a|
  {
    if a != [] {
      assert (a + b)[1..] == a[1..] + b;
      WithoutAppend(a[1..], b, c);
    } else {
      assert a + b == b;
    }
  }

  lemma {:induction false} WithoutAbsent(s: string, c: char)
    requires c !in s
    ensures Without(s, c) == s
    decreases |s|
  {
    if s != [] {
      WithoutAbsent(s[1..], c);
    }
  }

  lemma {:induction false} WithoutAround(pre: string, c: char, post: string)
    requires c !in pre
    ensures Without(pre + [c] + post, c) == pre + Without(post, c)
  {
    var tail := [c] + post;
    assert pre + [c] + post == pre + tail;
    WithoutAppend(pre, tail, c);
    WithoutAbsent(pre, c);
    assert tail[0] == c && tail[1..] == post;
    assert Without(tail, c) == Without(post, c);
  }

  /** `''.join(s.split(c))` is `s` with every `c` deleted. */
  lemma {:induction false} ConcatOfSplit(s: string, c: char)
    ensures Concat(Split(s, c)) == Without(s, c)
    decreases |s|
  {
    if c !in s {
      WithoutAbsent(s, c);
    } else {
      var i := IndexOf(s, c);
      var pre, post := s[..i], s[i + 1..];
      var rest := Split(post, c);
      assert Split(s, c) == [pre] + rest;
      ConcatOfSplit(post, c);
      ConcatCons(pre, rest);
      SplitAround(s, i);
      WithoutAround(pre, c, post);
    }
  }

  lemma ConcatCons(x: string, parts: seq<string>)
    ensures Concat([x] + parts) == x + Concat(parts)
  {
    assert ([x] + parts)[1..] == parts;
  }

  lemma SplitAround(s: string, i: nat)
    requires i < |s|
    ensures s == s[..i] + [s[i]] + s[i + 1..]
  {
  }

  /** Reading the lines of a text and concatenating them gives back the text. */
  lemma {:induction false} ConcatOfReadLines(text: string)
    ensures Concat(ReadLines(text)) == text
    decreases |text|
  {
    if text != [] && '\n' in text {
      var i := IndexOf(text, '\n');
      ConcatOfReadLines(text[i + 1..]);
      assert ([text[..i + 1]] + ReadLines(text[i + 1..]))[1..] == ReadLines(text[i + 1..]);
      assert text == text[..i + 1] + text[i + 1..];
    }
  }

  /** Reading back text written one newline-terminated line at a time yields exactly those lines. */
  lemma {:induction false} ReadLinesOfConcat(ls: seq<string>)
    requires forall i :: 0 <= i < |ls| ==> IsLine(ls[i])
    ensures ReadLines(Concat(ls)) == ls
    decreases |ls|
  {
    if ls != [] {
      var l := ls[0];
      var rest := Concat(ls[1..]);
      var body := l[..|l| - 1];
      assert l == body + ['\n'];
      assert Concat(ls) == body + ['\n'] + rest;
      IndexOfPrefix(body, '\n', rest);
      var text := Concat(ls);
      assert text[..|body| + 1] == l;
      assert text[|body| + 1..] == rest;
      ReadLinesOfConcat(ls[1..]);
      assert ls == [l] + ls[1..];
    }
  }

  /** Stripping newlines from text that has none, or only a final one, recovers the text. */
  lemma RStripNewline(s: string)
    requires '\n' !in s
    ensures RStrip(s, '\n') == s
    ensures RStrip(s + "\n", '\n') == s
  {
    RStripSpec(s, '\n');
    RStripSpec(s + "\n", '\n');
  }

  /** One leading `c` before text that does not start with `c` is all `lstrip` removes. */
  lemma LStripOnce(c: char, t: string)
    requires t == [] || t[0] != c
    ensures LStrip([c] + t, c) == t
  {
    assert ([c] + t)[1..] == t;
  }
}
