/** The handful of Python 2 string operations the converter relies on:
    clamped slicing, `str.split()`, `str.split(sep)`, `str.strip()` and `s[-1:]`. */
module PyText {

  /** `str.isspace` on one character of a Python 2 byte string. */
  predicate IsSpace(c: char) {
    c == ' ' || c == '\t' || c == '\n' || c == '\r' || c as int == 11 || c as int == 12
  }

  predicate NoSpace(s: string) {
    forall i :: 0 <= i < |s| ==> !IsSpace(s[i])
  }

  predicate AllSpace(s: string) {
    forall i :: 0 <= i < |s| ==> IsSpace(s[i])
  }

  /** `s[:n]` for a non-negative n: slicing past the end is clamped. */
  function Take(s: string, n: nat): string {
    if n <= |s| then s[..n] else s
  }

  /** `s[n:]` for a non-negative n: what `Take(s, n)` leaves over. */
  function Drop(s: string, n: nat): string {
    if n <= |s| then s[n..] else ""
  }

  /** `s[:n] + s[n:] == s`, with a prefix of n characters or all of s. */
  lemma TakeDrop(s: string, n: nat)
    ensures |Take(s, n)| == (if n <= |s| then n else |s|)
    ensures Take(s, n) + Drop(s, n) == s
  {
  }

  /** `s[-1:]`: the last character as a string, or "" for "". */
  function LastChar(s: string): (r: string)
    ensures |r| == (if s == "" then 0 else 1)
    ensures s != "" ==> r[0] == s[|s| - 1]
  {
    if s == "" then "" else s[|s| - 1..]
  }

  // ---------------------------------------------------------------------
  // str.split() with no argument
  // ---------------------------------------------------------------------

  /** Length of the run of non-space characters that starts s. */
  function WordLength(s: string): (n: nat)
    ensures n <= |s|
    ensures NoSpace(s[..n])
    ensures n < |s| ==> IsSpace(s[n])
  {
    if |s| == 0 || IsSpace(s[0]) then 0 else 1 + WordLength(s[1..])
  }

  /** `s.split()`: the maximal runs of non-space characters of s, in order. */
  function Words(s: string): (ws: seq<string>)
    ensures forall i :: 0 <= i < |ws| ==> ws[i] != "" && NoSpace(ws[i])
    decreases |s|
  {
    if |s| == 0 then []
    else if IsSpace(s[0]) then Words(s[1..])
    else
      var n := WordLength(s);
      [s[..n]] + Words(s[n..])
  }

  /** The characters of s that are not white space, in order. */
  function NonSpace(s: string): string {
    if |s| == 0 then ""
    else if IsSpace(s[0]) then NonSpace(s[1..])
    else [s[0]] + NonSpace(s[1..])
  }

  function Concat(ws: seq<string>): string {
    if |ws| == 0 then "" else ws[0] + Concat(ws[1..])
  }

  /** Joins words with one blank between each two: `' '.join(ws)`. */
  function Unwords(ws: seq<string>): string {
    if |ws| == 0 then ""
    else if |ws| == 1 then ws[0]
    else ws[0] + " " + Unwords(ws[1..])
  }

  lemma {:induction false} NonSpaceAppend(a: string, b: string)
    ensures NonSpace(a + b) == NonSpace(a) + NonSpace(b)
    decreases |a|
  {
    if |a| == 0 {
      assert a + b == b;
    } else {
      assert (a + b)[1..] == a[1..] + b;
      NonSpaceAppend(a[1..], b);
    }
  }

  lemma {:induction false} NonSpaceOfWord(w: string)
    requires NoSpace(w)
    ensures NonSpace(w) == w
    decreases |w|
  {
    if |w| > 0 {
      NonSpaceOfWord(w[1..]);
      assert w == [w[0]] + w[1..];
    }
  }

  /** No character is lost or invented by `split()` except white space. */
  lemma {:induction false} WordsKeepEveryNonSpace(s: string)
    ensures Concat(Words(s)) == NonSpace(s)
    decreases |s|
  {
    if |s| == 0 {
    } else if IsSpace(s[0]) {
      WordsKeepEveryNonSpace(s[1..]);
    } else {
      var n := WordLength(s);
      WordsKeepEveryNonSpace(s[n..]);
      assert s == s[..n] + s[n..];
      NonSpaceAppend(s[..n], s[n..]);
      NonSpaceOfWord(s[..n]);
      assert Concat([s[..n]] + Words(s[n..])) == s[..n] + Concat(Words(s[n..]));
    }
  }

  lemma {:induction false} WordLengthOfWord(w: string, rest: string)
    requires NoSpace(w)
    requires rest == "" || IsSpace(rest[0])
    ensures WordLength(w + rest) == |w|
    decreases |w|
  {
    if |w| == 0 {
      assert w + rest == rest;
    } else {
      assert (w + rest)[1..] == w[1..] + rest;
      WordLengthOfWord(w[1..], rest);
    }
  }

  /** White space in front of the text does not change its words. */
  lemma {:induction false} WordsSkipSpace(sp: string, s: string)
    requires AllSpace(sp)
    ensures Words(sp + s) == Words(s)
    decreases |sp|
  {
    if |sp| > 0 {
      assert (sp + s)[1..] == sp[1..] + s;
      WordsSkipSpace(sp[1..], s);
    } else {
      assert sp + s == s;
    }
  }

  /** A text that starts with a character other than white space has a word. */
  lemma WordsOfNonSpaceStart(s: string)
    requires s != "" && !IsSpace(s[0])
    ensures |Words(s)| >= 1 && Words(s)[0] == s[..WordLength(s)]
  {
  }

  /** A word followed by white space or the end of the text is split off whole. */
  lemma {:induction false} WordsOfWord(w: string, rest: string)
    requires w != "" && NoSpace(w)
    requires rest == "" || IsSpace(rest[0])
    ensures Words(w + rest) == [w] + Words(rest)
  {
    var s := w + rest;
    WordLengthOfWord(w, rest);
    assert s[..|w|] == w;
    assert s[|w|..] == rest;
  }

  /** Two words separated by a blank, then the rest of the text. */
  lemma TwoWords(w1: string, w2: string, rest: string)
    requires w1 != "" && NoSpace(w1) && w2 != "" && NoSpace(w2)
    requires rest == "" || IsSpace(rest[0])
    ensures Words(w1 + " " + w2 + rest) == [w1, w2] + Words(rest)
  {
    var tail := w2 + rest;
    WordsOfWord(w2, rest);
    WordsSkipSpace(" ", tail);
    WordsOfWord(w1, " " + tail);
    Assoc(w1 + " ", w2, rest);
    Assoc(w1, " ", w2 + rest);
  }

  /** Concatenation is associative. */
  lemma Assoc<T>(a: seq<T>, b: seq<T>, c: seq<T>)
    ensures a + b + c == a + (b + c)
  {
  }

  /** One word with white space around it splits into just that word. */
  lemma PaddedWord(sp: string, w: string, post: string)
    requires AllSpace(sp) && AllSpace(post)
    requires w != "" && NoSpace(w)
    ensures Words(sp + w + post) == [w]
  {
    assert sp + w + post == sp + (w + post);
    WordsSkipSpace(sp, w + post);
    if post != "" {
      assert IsSpace(post[0]);
    }
    WordsOfWord(w, post);
    assert post + "" == post;
    WordsSkipSpace(post, "");
  }

  /** `' '.join` followed by `split()` gives back the words. */
  lemma {:induction false} WordsOfUnwords(ws: seq<string>)
    requires forall i :: 0 <= i < |ws| ==> ws[i] != "" && NoSpace(ws[i])
    ensures Words(Unwords(ws)) == ws
    decreases |ws|
  {
    if |ws| == 0 {
    } else if |ws| == 1 {
      WordsOfWord(ws[0], "");
      assert ws[0] + "" == ws[0];
    } else {
      WordsOfUnwords(ws[1..]);
      assert ws[0] + " " + Unwords(ws[1..]) == ws[0] + (" " + Unwords(ws[1..]));
      WordsOfWord(ws[0], " " + Unwords(ws[1..]));
      WordsSkipSpace(" ", Unwords(ws[1..]));
      assert ws == [ws[0]] + ws[1..];
    }
  }

  // ---------------------------------------------------------------------
  // str.split(sep) with a one-character separator
  // ---------------------------------------------------------------------

  /** `s.split(sep)`: the pieces between separators, empty pieces included. */
  function Split(s: string, sep: char): (parts: seq<string>)
    ensures |parts| >= 1
    ensures forall i :: 0 <= i < |parts| ==> sep !in parts[i]
    ensures |parts| == 1 <==> sep !in s
  {
    if |s| == 0 then [""]
    else
      var rest := Split(s[1..], sep);
      if s[0] == sep then [""] + rest
      else [[s[0]] + rest[0]] + rest[1..]
  }

  /** `sep.join(parts)`. */
  function Join(parts: seq<string>, sep: char): string
    requires |parts| >= 1
  {
    if |parts| == 1 then parts[0] else parts[0] + [sep] + Join(parts[1..], sep)
  }

  /** Joining the pieces of a split restores the text. */
  lemma {:induction false} JoinSplit(s: string, sep: char)
    ensures Join(Split(s, sep), sep) == s
    decreases |s|
  {
    if |s| > 0 {
      var rest := Split(s[1..], sep);
      JoinSplit(s[1..], sep);
      if s[0] == sep {
        assert Split(s, sep)[1..] == rest;
      } else {
        var parts := Split(s, sep);
        if |rest| == 1 {
          assert parts == [[s[0]] + rest[0]];
        } else {
          assert parts[1..] == rest[1..];
          assert Join(rest, sep) == rest[0] + [sep] + Join(rest[1..], sep);
        }
      }
    }
  }

  /** A piece free of the separator stays glued to whatever follows it. */
  lemma {:induction false} SplitPiece(p: string, t: string, sep: char)
    requires sep !in p
    ensures Split(p + t, sep) == [p + Split(t, sep)[0]] + Split(t, sep)[1..]
    decreases |p|
  {
    if |p| > 0 {
      assert (p + t)[1..] == p[1..] + t;
      SplitPiece(p[1..], t, sep);
      assert (p + t)[0] == p[0] && p[0] != sep;
      var rest := Split(p[1..] + t, sep);
      assert Split(p + t, sep) == [[p[0]] + rest[0]] + rest[1..];
      assert [p[0]] + (p[1..] + Split(t, sep)[0]) == p + Split(t, sep)[0];
    } else {
      assert p + t == t;
      assert p + Split(t, sep)[0] == Split(t, sep)[0];
      assert Split(t, sep) == [Split(t, sep)[0]] + Split(t, sep)[1..];
    }
  }

  /** Splitting a join gives back the pieces, provided none holds the separator. */
  lemma {:induction false} SplitJoin(parts: seq<string>, sep: char)
    requires |parts| >= 1
    requires forall i :: 0 <= i < |parts| ==> sep !in parts[i]
    ensures Split(Join(parts, sep), sep) == parts
    decreases |parts|
  {
    if |parts| == 1 {
      SplitPiece(parts[0], "", sep);
      assert parts[0] + "" == parts[0];
    } else {
      var tail := Join(parts[1..], sep);
      SplitJoin(parts[1..], sep);
      assert parts[0] + [sep] + tail == parts[0] + ([sep] + tail);
      var st := [sep] + tail;
      assert st[0] == sep && st[1..] == tail;
      assert Split(st, sep) == [""] + parts[1..];
      SplitPiece(parts[0], st, sep);
      assert parts[0] + "" == parts[0];
      assert Join(parts, sep) == parts[0] + st;
      assert parts == [parts[0]] + parts[1..];
    }
  }

  // ---------------------------------------------------------------------
  // str.strip()
  // ---------------------------------------------------------------------

  function TrimStart(s: string): (r: string)
    ensures |r| <= |s| && r == s[|s| - |r|..]
    ensures AllSpace(s[..|s| - |r|])
    ensures r == "" || !IsSpace(r[0])
  {
    if |s| > 0 && IsSpace(s[0]) then
      var r := TrimStart(s[1..]);
      TrimStartStep(s, r);
      r
    else s
  }

  /** Leading white space one character longer is still white space. */
  lemma TrimStartStep(s: string, r: string)
    requires |s| > 0 && IsSpace(s[0]) && |r| <= |s| - 1
    requires r == s[1..][|s| - 1 - |r|..] && AllSpace(s[1..][..|s| - 1 - |r|])
    ensures r == s[|s| - |r|..] && AllSpace(s[..|s| - |r|])
  {
    assert s[..|s| - |r|] == [s[0]] + s[1..][..|s| - 1 - |r|];
  }

  function TrimEnd(s: string): (r: string)
    ensures |r| <= |s| && r == s[..|r|]
    ensures AllSpace(s[|r|..])
    ensures r == "" || !IsSpace(r[|r| - 1])
  {
    if |s| > 0 && IsSpace(s[|s| - 1]) then
      var r := TrimEnd(s[..|s| - 1]);
      TrimEndStep(s, r);
      r
    else s
  }

  /** Trailing white space one character longer is still white space. */
  lemma TrimEndStep(s: string, r: string)
    requires |s| > 0 && IsSpace(s[|s| - 1]) && |r| <= |s| - 1
    requires r == s[..|s| - 1][..|r|] && AllSpace(s[..|s| - 1][|r|..])
    ensures r == s[..|r|] && AllSpace(s[|r|..])
  {
    assert s[|r|..] == s[..|s| - 1][|r|..] + [s[|s| - 1]];
  }

  /** `s.strip()`: s without its leading and trailing white space. */
  function Strip(s: string): string {
    TrimEnd(TrimStart(s))
  }

  /** Stripping removes white space around a text and nothing else. */
  lemma StripAround(pre: string, t: string, post: string)
    requires AllSpace(pre) && AllSpace(post)
    requires t == "" || (!IsSpace(t[0]) && !IsSpace(t[|t| - 1]))
    ensures Strip(pre + t + post) == t
  {
    if t != "" {
      TrimStartSkips(pre, t + post);
      Assoc(pre, t, post);
      TrimEndSkips(t, post);
    } else {
      assert pre + t + post == (pre + post) + "";
      assert AllSpace(pre + post) by {
        forall i | 0 <= i < |pre + post| ensures IsSpace((pre + post)[i]) {
          if i < |pre| { assert (pre + post)[i] == pre[i]; } else { assert (pre + post)[i] == post[i - |pre|]; }
        }
      }
      TrimStartSkips(pre + post, "");
    }
  }

  lemma {:induction false} TrimStartSkips(sp: string, s: string)
    requires AllSpace(sp)
    requires s == "" || !IsSpace(s[0])
    ensures TrimStart(sp + s) == s
    decreases |sp|
  {
    if |sp| > 0 {
      assert (sp + s)[1..] == sp[1..] + s;
      TrimStartSkips(sp[1..], s);
    } else {
      assert sp + s == s;
    }
  }

  lemma {:induction false} TrimEndSkips(s: string, sp: string)
    requires AllSpace(sp)
    requires s == "" || !IsSpace(s[|s| - 1])
    ensures TrimEnd(s + sp) == s
    decreases |sp|
  {
    if |sp| > 0 {
      assert (s + sp)[..|s + sp| - 1] == s + sp[..|sp| - 1];
      TrimEndSkips(s, sp[..|sp| - 1]);
    } else {
      assert s + sp == s;
    }
  }
}
