/** Python's built-in string operations as the file processor uses them:
    `s.split(sep)`, `s.split()`, `s.strip()`, `s.lower()` (ASCII letters only)
    and the substring test `sub in s`. */
module PyText {

  /** Python's `str.isspace()` for one character: the characters that
      `split()` and `strip()` without arguments treat as whitespace. */
  predicate IsSpace(c: char) {
    || ('\t' <= c <= '\r')
    || ('\U{1c}' <= c <= ' ')
    || c == '\U{85}' || c == '\U{a0}' || c == '\U{1680}'
    || ('\U{2000}' <= c <= '\U{200a}')
    || c == '\U{2028}' || c == '\U{2029}' || c == '\U{202f}' || c == '\U{205f}' || c == '\U{3000}'
  }

  predicate NoSpace(s: string) {
    forall i :: 0 <= i < |s| ==> !IsSpace(s[i])
  }

  predicate AllSpace(s: string) {
    forall i :: 0 <= i < |s| ==> IsSpace(s[i])
  }

  /** The pieces joined with `sep` between them: Python's `sep.join(pieces)`. */
  function Join(pieces: seq<string>, sep: char): string {
    if |pieces| == 0 then ""
    else if |pieces| == 1 then pieces[0]
    else pieces[0] + [sep] + Join(pieces[1..], sep)
  }

  /** The pieces written one after the other: `"".join(pieces)`. */
  function Concat(pieces: seq<string>): string {
    if pieces == [] then "" else pieces[0] + Concat(pieces[1..])
  }

  lemma ConcatAppend(a: seq<string>, b: seq<string>)
    ensures Concat(a + b) == Concat(a) + Concat(b)
  {
    if a == [] {
      assert a + b == b;
    } else {
      assert (a + b)[0] == a[0];
      assert (a + b)[1..] == a[1..] + b;
      ConcatAppend(a[1..], b);
    }
  }

  lemma JoinCons(c: char, rest: seq<string>, sep: char)
    requires |rest| >= 1
    ensures Join([[c] + rest[0]] + rest[1..], sep) == [c] + Join(rest, sep)
  {
    var p := [[c] + rest[0]] + rest[1..];
    assert p[1..] == rest[1..];
  }

  /** Number of times `c` occurs in `s`: Python's `s.count(c)`. */
  function Occurrences(s: string, c: char): nat {
    if s == [] then 0 else (if s[0] == c then 1 else 0) + Occurrences(s[1..], c)
  }

  /** The pieces are free of `sep`, there is one more of them than `sep`
      occurs in `s`, and joining them with `sep` gives `s` back. */
  ghost predicate SplitsInto(s: string, sep: char, pieces: seq<string>) {
    && |pieces| == Occurrences(s, sep) + 1
    && (forall i :: 0 <= i < |pieces| ==> sep !in pieces[i])
    && Join(pieces, sep) == s
  }

  /** The pieces of `s[1..]` extended by the first character of `s`: a
      separator starts a new empty piece, any other character goes in front
      of the first piece. */
  function SplitCons(c: char, rest: seq<string>, sep: char): seq<string>
    requires |rest| >= 1
  {
    if c == sep then [""] + rest else [[c] + rest[0]] + rest[1..]
  }

  lemma SplitConsSplits(s: string, sep: char, rest: seq<string>)
    requires s != [] && SplitsInto(s[1..], sep, rest)
    ensures SplitsInto(s, sep, SplitCons(s[0], rest, sep))
  {
    var pieces := SplitCons(s[0], rest, sep);
    if s[0] == sep {
      assert pieces[1..] == rest;
    } else {
      JoinCons(s[0], rest, sep);
      assert pieces[1..] == rest[1..];
      forall i | 0 <= i < |pieces| ensures sep !in pieces[i] {
        if i > 0 {
          assert pieces[i] == rest[i];
        }
      }
    }
  }

  /** Python's `s.split(sep)` for a one-character separator: empty pieces
      are kept (between two adjacent separators and at either end) and there
      is always at least one piece. */
  function Split(s: string, sep: char): (pieces: seq<string>)
    ensures |pieces| == Occurrences(s, sep) + 1
    ensures forall i :: 0 <= i < |pieces| ==> sep !in pieces[i]
    ensures Join(pieces, sep) == s
  {
    if s == [] then [""]
    else
      var rest := Split(s[1..], sep);
      SplitConsSplits(s, sep, rest);
      SplitCons(s[0], rest, sep)
  }

  /** Splitting undoes joining: any non-empty list of pieces free of the
      separator comes back from `Split` unchanged. */
  lemma {:induction false} SplitJoin(pieces: seq<string>, sep: char)
    requires |pieces| >= 1
    requires forall i :: 0 <= i < |pieces| ==> sep !in pieces[i]
    ensures Split(Join(pieces, sep), sep) == pieces
    decreases |Join(pieces, sep)|
  {
    var s := Join(pieces, sep);
    if pieces[0] == "" {
      if |pieces| > 1 {
        var tail := pieces[1..];
        assert s == [sep] + Join(tail, sep);
        assert s[1..] == Join(tail, sep);
        SplitJoin(tail, sep);
        assert Split(s, sep) == SplitCons(sep, tail, sep);
        assert pieces == [""] + tail;
      }
    } else {
      var c := pieces[0][0];
      var shorter := DropFirstChar(pieces, sep);
      JoinCons(c, shorter, sep);
      assert pieces == [[c] + shorter[0]] + shorter[1..];
      assert s == [c] + Join(shorter, sep);
      assert s[1..] == Join(shorter, sep);
      SplitJoin(shorter, sep);
      assert Split(s, sep) == SplitCons(c, shorter, sep);
    }
  }

  /** The pieces with the first character of the first piece removed. */
  function DropFirstChar(pieces: seq<string>, sep: char): (shorter: seq<string>)
    requires |pieces| >= 1 && pieces[0] != ""
    requires forall i :: 0 <= i < |pieces| ==> sep !in pieces[i]
    ensures |shorter| == |pieces| && shorter[1..] == pieces[1..]
    ensures pieces[0] == [pieces[0][0]] + shorter[0] && pieces[0][0] != sep
    ensures forall i :: 0 <= i < |shorter| ==> sep !in shorter[i]
  {
    var shorter := [pieces[0][1..]] + pieces[1..];
    assert sep !in pieces[0];
    assert forall x :: x in shorter[0] ==> x in pieces[0];
    assert forall i :: 1 <= i < |shorter| ==> shorter[i] == pieces[i];
    shorter
  }

  /** Length of the run of non-whitespace characters that starts `s`. */
  function WordLength(s: string): (n: nat)
    ensures n <= |s|
    ensures forall i :: 0 <= i < n ==> !IsSpace(s[i])
    ensures n == |s| || IsSpace(s[n])
  {
    if s == [] || IsSpace(s[0]) then 0 else 1 + WordLength(s[1..])
  }

  /** `s` with every whitespace character removed. */
  function RemoveSpaces(s: string): string {
    if s == [] then ""
    else (if IsSpace(s[0]) then "" else [s[0]]) + RemoveSpaces(s[1..])
  }

  lemma {:induction false} RemoveSpacesAppend(a: string, b: string)
    ensures RemoveSpaces(a + b) == RemoveSpaces(a) + RemoveSpaces(b)
  {
    if a == [] {
      assert a + b == b;
    } else {
      var head := if IsSpace(a[0]) then "" else [a[0]];
      assert (a + b)[0] == a[0];
      assert (a + b)[1..] == a[1..] + b;
      assert RemoveSpaces(a + b) == head + RemoveSpaces(a[1..] + b);
      RemoveSpacesAppend(a[1..], b);
      assert RemoveSpaces(a) == head + RemoveSpaces(a[1..]);
    }
  }

  lemma {:induction false} RemoveSpacesOfWord(w: string)
    requires NoSpace(w)
    ensures RemoveSpaces(w) == w
  {
    if w != [] {
      RemoveSpacesOfWord(w[1..]);
      assert w == [w[0]] + w[1..];
    }
  }

  /** Python's `s.split()` with no argument: the maximal runs of
      non-whitespace characters, in order; whitespace runs of any length
      separate them and no empty word is produced. */
  function Words(s: string): (words: seq<string>)
    ensures forall i :: 0 <= i < |words| ==> words[i] != "" && NoSpace(words[i])
    ensures Concat(words) == RemoveSpaces(s)
    decreases |s|
  {
    if s == [] then []
    else if IsSpace(s[0]) then
      assert s == [s[0]] + s[1..];
      Words(s[1..])
    else
      var n := WordLength(s);
      var rest := Words(s[n..]);
      assert s == s[..n] + s[n..];
      RemoveSpacesAppend(s[..n], s[n..]);
      RemoveSpacesOfWord(s[..n]);
      assert ([s[..n]] + rest)[1..] == rest;
      [s[..n]] + rest
  }

  lemma WordLengthOfWord(w: string, rest: string)
    requires NoSpace(w)
    requires rest == [] || IsSpace(rest[0])
    ensures WordLength(w + rest) == |w|
    decreases |w|
  {
    if w != [] {
      assert (w + rest)[1..] == w[1..] + rest;
      WordLengthOfWord(w[1..], rest);
    } else {
      assert w + rest == rest;
    }
  }

  /** `split()` undoes joining with single spaces: words that are non-empty
      and free of whitespace come back unchanged. This is `WordsOfSpaced`
      with one space in every gap and nothing before or after. */
  lemma {:induction false} WordsJoin(words: seq<string>)
    requires forall i :: 0 <= i < |words| ==> words[i] != "" && NoSpace(words[i])
    ensures Words(Join(words, ' ')) == words
  {
    if words != [] {
      var gaps := seq(|words| - 1, i => [' ']);
      assert IsSpace(' ') && AllSpace([' ']);
      assert forall i :: 0 <= i < |gaps| ==> gaps[i] == [' '];
      JoinIsInterleave(words, ' ');
      WordsOfSpaced("", words, gaps, "");
      assert "" + Interleave(words, gaps) + "" == Interleave(words, gaps);
    }
  }

  /** Joining with `sep` is interleaving with one `sep` in every gap. */
  lemma {:induction false} JoinIsInterleave(words: seq<string>, sep: char)
    requires |words| >= 1
    ensures Join(words, sep) == Interleave(words, seq(|words| - 1, i => [sep]))
    decreases |words|
  {
    if |words| > 1 {
      JoinIsInterleave(words[1..], sep);
      assert seq(|words| - 1, i => [sep])[1..] == seq(|words| - 2, i => [sep]);
    }
  }

  /** The words with the gaps between them: `words[0] + gaps[0] + words[1] + ...`. */
  function Interleave(words: seq<string>, gaps: seq<string>): string
    requires |words| == |gaps| + 1
  {
    if |words| == 1 then words[0] else words[0] + gaps[0] + Interleave(words[1..], gaps[1..])
  }

  /** Leading whitespace does not change the words. */
  lemma {:induction false} WordsAfterSpaces(pre: string, t: string)
    requires AllSpace(pre)
    ensures Words(pre + t) == Words(t)
  {
    if pre == [] {
      assert pre + t == t;
    } else {
      assert IsSpace(pre[0]);
      assert (pre + t)[0] == pre[0];
      assert (pre + t)[1..] == pre[1..] + t;
      assert Words(pre + t) == Words(pre[1..] + t);
      WordsAfterSpaces(pre[1..], t);
    }
  }

  /** A whitespace-only string has no words. */
  lemma WordsOfSpaces(s: string)
    requires AllSpace(s)
    ensures Words(s) == []
  {
    WordsAfterSpaces(s, "");
    assert s + "" == s;
  }

  /** A word followed by the end or by whitespace is the first word. */
  lemma WordsWordThen(w: string, t: string)
    requires w != "" && NoSpace(w)
    requires t == [] || IsSpace(t[0])
    ensures Words(w + t) == [w] + Words(t)
  {
    WordLengthOfWord(w, t);
    var s := w + t;
    assert s[..|w|] == w && s[|w|..] == t;
  }

  /** After leading whitespace, a word followed by the end or by
      whitespace is the first word. */
  lemma WordsNextWord(pre: string, w: string, t: string)
    requires AllSpace(pre) && w != "" && NoSpace(w)
    requires t == [] || IsSpace(t[0])
    ensures Words(pre + (w + t)) == [w] + Words(t)
  {
    WordsAfterSpaces(pre, w + t);
    WordsWordThen(w, t);
  }

  /** `split()` returns exactly the maximal runs of non-whitespace: words
      with non-empty whitespace gaps between them, and any whitespace
      before and after, come back unchanged (a string of whitespace only
      has no words, by `WordsOfSpaces`). */
  lemma {:induction false} WordsOfSpaced(pre: string, words: seq<string>, gaps: seq<string>, suf: string)
    requires AllSpace(pre) && AllSpace(suf)
    requires |words| == |gaps| + 1
    requires forall i :: 0 <= i < |words| ==> words[i] != "" && NoSpace(words[i])
    requires forall i :: 0 <= i < |gaps| ==> gaps[i] != "" && AllSpace(gaps[i])
    ensures Words(pre + Interleave(words, gaps) + suf) == words
    decreases |words|
  {
    var w := words[0];
    if |words| == 1 {
      assert pre + Interleave(words, gaps) + suf == pre + (w + suf);
      WordsNextWord(pre, w, suf);
      WordsOfSpaces(suf);
    } else {
      var g := gaps[0];
      var t := g + Interleave(words[1..], gaps[1..]) + suf;
      assert pre + Interleave(words, gaps) + suf == pre + (w + t);
      assert t[0] == g[0];
      WordsNextWord(pre, w, t);
      assert forall i :: 0 <= i < |words[1..]| ==> words[1..][i] == words[i + 1];
      assert forall i :: 0 <= i < |gaps[1..]| ==> gaps[1..][i] == gaps[i + 1];
      WordsOfSpaced(g, words[1..], gaps[1..], suf);
      assert words == [w] + words[1..];
    }
  }

  /** Number of whitespace characters that start `s`. */
  function LeadingSpaces(s: string): (n: nat)
    ensures n <= |s|
    ensures forall i :: 0 <= i < n ==> IsSpace(s[i])
    ensures n == |s| || !IsSpace(s[n])
  {
    if s != [] && IsSpace(s[0]) then 1 + LeadingSpaces(s[1..]) else 0
  }

  /** Number of whitespace characters that end `s`. */
  function TrailingSpaces(s: string): (n: nat)
    ensures n <= |s|
    ensures forall i :: |s| - n <= i < |s| ==> IsSpace(s[i])
    ensures n == |s| || !IsSpace(s[|s| - 1 - n])
  {
    if s != [] && IsSpace(s[|s| - 1]) then 1 + TrailingSpaces(s[..|s| - 1]) else 0
  }

  /** `r` is `s` with a whitespace-only prefix of length `i` and a
      whitespace-only suffix removed. */
  ghost predicate TrimmedAt(s: string, r: string, i: int) {
    && 0 <= i && i + |r| <= |s|
    && s[i..i + |r|] == r
    && AllSpace(s[..i])
    && AllSpace(s[i + |r|..])
  }

  /** Neither end of `s` is whitespace. */
  predicate Trimmed(s: string) {
    s == "" || (!IsSpace(s[0]) && !IsSpace(s[|s| - 1]))
  }

  /** Python's `s.strip()` with no argument: leading and trailing whitespace
      removed, nothing else changed. */
  function Strip(s: string): (r: string)
    ensures exists i :: TrimmedAt(s, r, i)
    ensures Trimmed(r)
    ensures r == "" <==> AllSpace(s)
  {
    var a := LeadingSpaces(s);
    var t := s[a..];
    var b := TrailingSpaces(t);
    var r := t[..|t| - b];
    assert TrimmedAt(s, r, a) by {
      assert s[a..a + |r|] == r;
      assert s[a + |r|..] == t[|t| - b..];
    }
    r
  }

  /** `strip()` leaves a string unchanged exactly when neither end is
      whitespace. */
  lemma StripFixed(s: string)
    ensures Strip(s) == s <==> Trimmed(s)
  {
    if Trimmed(s) && s != "" {
      assert LeadingSpaces(s) == 0;
      assert s[0..] == s;
      assert TrailingSpaces(s) == 0;
      assert s[..|s|] == s;
    }
  }

  /** Stripping twice is the same as stripping once. */
  lemma StripIdempotent(s: string)
    ensures Strip(Strip(s)) == Strip(s)
  {
    StripFixed(Strip(s));
  }

  /** A stripped string holds only characters of the original. */
  lemma StripSubset(s: string, c: char)
    requires c !in s
    ensures c !in Strip(s)
  {
    var r := Strip(s);
    var i :| TrimmedAt(s, r, i);
  }

  /** Python's `c.lower()` restricted to ASCII letters. */
  function LowerChar(c: char): char {
    if 'A' <= c <= 'Z' then (c as int + 32) as char else c
  }

  /** Python's `s.lower()` restricted to ASCII letters. */
  function Lower(s: string): (r: string)
    ensures |r| == |s|
    ensures forall i :: 0 <= i < |s| ==> r[i] == LowerChar(s[i])
  {
    seq(|s|, i requires 0 <= i < |s| => LowerChar(s[i]))
  }

  ghost predicate OccursAt(s: string, sub: string, i: int) {
    0 <= i && i + |sub| <= |s| && s[i..i + |sub|] == sub
  }

  /** Python's `sub in s`: `sub` occurs somewhere in `s` as a contiguous
      block (the empty string occurs everywhere). */
  function Contains(s: string, sub: string): (b: bool)
    ensures b <==> exists i :: OccursAt(s, sub, i)
    decreases |s|
  {
    if |sub| > |s| then false
    else if s[..|sub|] == sub then
      assert OccursAt(s, sub, 0);
      true
    else
      var b := Contains(s[1..], sub);
      assert b ==> exists i :: OccursAt(s, sub, i) by {
        if b {
          var j :| OccursAt(s[1..], sub, j);
          assert s[j + 1..j + 1 + |sub|] == s[1..][j..j + |sub|];
          assert OccursAt(s, sub, j + 1);
        }
      }
      assert (exists i :: OccursAt(s, sub, i)) ==> b by {
        if exists i :: OccursAt(s, sub, i) {
          var i :| OccursAt(s, sub, i);
          assert i != 0;
          assert s[1..][i - 1..i - 1 + |sub|] == s[i..i + |sub|];
          assert OccursAt(s[1..], sub, i - 1);
        }
      }
      b
  }
}
