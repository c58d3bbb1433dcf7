/** The pieces of Python's `str` that the request handler leans on:
    `split()` with no argument, `split(sep)`, `removeprefix` and `in`.
    Each is given a definition that follows CPython's behaviour and a
    partner (a join it inverts, a count it agrees with) tied to it by a lemma. */
module PyStr {

  /** `str.isspace()` for one character: the characters CPython's
      `str.split()` treats as separators (ASCII controls 9-13 and 28-31,
      the space, NEL, NO-BREAK SPACE, the Unicode space separators, and the
      line and paragraph separators U+2028 and U+2029). */
  predicate IsSpace(c: char)
    ensures c == ' ' || c == '\t' || c == '\r' || c == '\n' ==> IsSpace(c)
    ensures '!' <= c <= '~' ==> !IsSpace(c)
  {
    var n := c as int;
    || (0x09 <= n <= 0x0D)
    || (0x1C <= n <= 0x20)
    || n == 0x85 || n == 0xA0 || n == 0x1680
    || (0x2000 <= n <= 0x200A)
    || n == 0x2028 || n == 0x2029 || n == 0x202F || n == 0x205F || n == 0x3000
  }

  /** A token `str.split()` can produce: non-empty and free of whitespace. */
  predicate IsWord(w: string) {
    |w| > 0 && forall i :: 0 <= i < |w| ==> !IsSpace(w[i])
  }

  /** Length of the whitespace-free run at the front of `s`. */
  function WordLength(s: string): (n: nat)
    ensures n <= |s|
    ensures forall i :: 0 <= i < n ==> !IsSpace(s[i])
    ensures n < |s| ==> IsSpace(s[n])
  {
    if s == [] || IsSpace(s[0]) then 0 else 1 + WordLength(s[1..])
  }

  /** The three facts in `WordLength`'s contract pin its value down. */
  lemma {:induction false} WordLengthUnique(s: string, n: nat)
    requires n <= |s|
    requires forall i :: 0 <= i < n ==> !IsSpace(s[i])
    requires n == |s| || IsSpace(s[n])
    ensures WordLength(s) == n
    decreases n
  {
    if n > 0 {
      assert !IsSpace(s[0]);
      WordLengthUnique(s[1..], n - 1);
    }
  }

  /** `s.split()`: the maximal whitespace-free runs of `s`, in order;
      runs of whitespace separate tokens and never yield empty ones. */
  function Split(s: string): (r: seq<string>)
    ensures forall i :: 0 <= i < |r| ==> IsWord(r[i])
    decreases |s|
  {
    if s == [] then []
    else if IsSpace(s[0]) then Split(s[1..])
    else
      var n := WordLength(s);
      [s[..n]] + Split(s[n..])
  }

  /** A run of whitespace, possibly empty. */
  predicate IsGap(g: string) {
    forall i :: 0 <= i < |g| ==> IsSpace(g[i])
  }

  /** `gaps` can surround `ws`: one gap before, between and after the words,
      all whitespace, and the gaps between two words non-empty. */
  predicate Spacing(gaps: seq<string>, ws: seq<string>) {
    && |gaps| == |ws| + 1
    && (forall i :: 0 <= i < |gaps| ==> IsGap(gaps[i]))
    && (forall i :: 0 < i < |ws| ==> gaps[i] != [])
  }

  /** `gaps[0] + ws[0] + gaps[1] + ... + ws[n-1] + gaps[n]`. */
  function Interleave(gaps: seq<string>, ws: seq<string>): string
    requires |gaps| == |ws| + 1
  {
    if ws == [] then gaps[0] else gaps[0] + ws[0] + Interleave(gaps[1..], ws[1..])
  }

  /** Whitespace alone has no tokens. */
  lemma {:induction false} SplitGap(g: string, rest: string)
    requires IsGap(g)
    ensures Split(g + rest) == Split(rest)
    decreases |g|
  {
    if g != [] {
      assert (g + rest)[0] == g[0];
      assert (g + rest)[1..] == g[1..] + rest;
      SplitGap(g[1..], rest);
    } else {
      assert g + rest == rest;
    }
  }

  /** Words laid out with any spacing split back into exactly those words. */
  lemma {:induction false} SplitInterleave(gaps: seq<string>, ws: seq<string>)
    requires Spacing(gaps, ws)
    requires forall i :: 0 <= i < |ws| ==> IsWord(ws[i])
    ensures Split(Interleave(gaps, ws)) == ws
    decreases |ws|
  {
    if ws == [] {
      SplitGap(gaps[0], "");
      assert gaps[0] + "" == gaps[0];
    } else {
      var rest := Interleave(gaps[1..], ws[1..]);
      SplitInterleave(gaps[1..], ws[1..]);
      if |ws| > 1 {
        assert gaps[1] != [] && IsSpace(gaps[1][0]);
        assert rest[0] == gaps[1][0];
      } else {
        assert rest == gaps[1];
      }
      SplitWordThen(ws[0], rest);
      SplitGap(gaps[0], ws[0] + rest);
      assert gaps[0] + ws[0] + rest == gaps[0] + (ws[0] + rest);
      assert [ws[0]] + ws[1..] == ws;
    }
  }

  /** A whitespace character in front widens the first gap. */
  lemma SpacingConsSpace(c: char, gaps: seq<string>, ws: seq<string>)
    requires IsSpace(c) && Spacing(gaps, ws)
    ensures var gaps' := [[c] + gaps[0]] + gaps[1..];
            && Spacing(gaps', ws)
            && Interleave(gaps', ws) == [c] + Interleave(gaps, ws)
            && gaps'[0] != []
  {
    var gaps' := [[c] + gaps[0]] + gaps[1..];
    assert gaps'[0] == [c] + gaps[0];
    assert gaps'[1..] == gaps[1..];
    assert forall i :: 1 <= i < |gaps'| ==> gaps'[i] == gaps[i];
  }

  /** A word in front, followed by a non-empty gap unless it is the last
      word, adds an empty first gap. */
  lemma SpacingConsWord(w: string, gaps: seq<string>, ws: seq<string>)
    requires Spacing(gaps, ws)
    requires ws == [] || gaps[0] != []
    ensures Spacing([""] + gaps, [w] + ws)
    ensures Interleave([""] + gaps, [w] + ws) == w + Interleave(gaps, ws)
  {
    var gaps' := [""] + gaps;
    assert gaps'[1..] == gaps;
    assert ([w] + ws)[1..] == ws;
    assert forall i :: 1 <= i < |gaps'| ==> gaps'[i] == gaps[i - 1];
  }

  /** Every text is its own tokens laid out with some spacing: `split()`
      breaks exactly at the whitespace runs and loses nothing else. */
  lemma {:induction false} SplitSpacing(s: string)
    ensures exists gaps :: Spacing(gaps, Split(s)) && Interleave(gaps, Split(s)) == s
  {
    var gaps := SpacingOf(s);
  }

  lemma {:induction false} SpacingOf(s: string) returns (gaps: seq<string>)
    ensures Spacing(gaps, Split(s)) && Interleave(gaps, Split(s)) == s
    ensures s != [] && IsSpace(s[0]) ==> gaps[0] != []
    decreases |s|
  {
    if s == [] {
      gaps := [""];
    } else if IsSpace(s[0]) {
      var g := SpacingOf(s[1..]);
      SpacingConsSpace(s[0], g, Split(s[1..]));
      gaps := [[s[0]] + g[0]] + g[1..];
      assert [s[0]] + s[1..] == s;
    } else {
      var n := WordLength(s);
      var g := SpacingOf(s[n..]);
      SpacingConsWord(s[..n], g, Split(s[n..]));
      gaps := [""] + g;
      assert s[..n] + s[n..] == s;
    }
  }

  /** Words laid out with gaps free of line feeds hold no line feed. */
  lemma {:induction false} InterleaveOneLine(gaps: seq<string>, ws: seq<string>)
    requires Spacing(gaps, ws)
    requires forall i :: 0 <= i < |gaps| ==> '\n' !in gaps[i]
    requires forall i :: 0 <= i < |ws| ==> IsWord(ws[i])
    ensures '\n' !in Interleave(gaps, ws)
    decreases |ws|
  {
    if ws != [] {
      InterleaveOneLine(gaps[1..], ws[1..]);
      assert IsSpace('\n') && IsWord(ws[0]);
      assert '\n' !in ws[0];
    }
  }

  /** `" ".join(ws)`. */
  function JoinWords(ws: seq<string>): string {
    if ws == [] then ""
    else if |ws| == 1 then ws[0]
    else ws[0] + " " + JoinWords(ws[1..])
  }

  /** Words joined by single spaces hold no line feed. */
  lemma {:induction false} JoinWordsOneLine(ws: seq<string>)
    requires forall i :: 0 <= i < |ws| ==> IsWord(ws[i])
    ensures '\n' !in JoinWords(ws)
    decreases |ws|
  {
    if |ws| > 1 {
      JoinWordsOneLine(ws[1..]);
      assert IsSpace('\n') && IsWord(ws[0]);
      assert '\n' !in ws[0];
    } else if |ws| == 1 {
      assert IsSpace('\n') && IsWord(ws[0]);
    }
  }

  /** Concatenation of a sequence of strings, `"".join(ws)`. */
  function Flatten(ws: seq<string>): string {
    if ws == [] then "" else ws[0] + Flatten(ws[1..])
  }

  /** `s` with every whitespace character removed. */
  function RemoveSpaces(s: string): string {
    if s == [] then ""
    else if IsSpace(s[0]) then RemoveSpaces(s[1..])
    else [s[0]] + RemoveSpaces(s[1..])
  }

  /** A word followed by nothing or by whitespace is split off whole. */
  lemma SplitWordThen(w: string, rest: string)
    requires IsWord(w)
    requires rest == [] || IsSpace(rest[0])
    ensures Split(w + rest) == [w] + Split(rest)
  {
    var s := w + rest;
    assert s[0] == w[0];
    WordLengthUnique(s, |w|);
    assert s[..|w|] == w;
    assert s[|w|..] == rest;
  }

  /** Joining whitespace-free words with single spaces and splitting again
      gives the words back. */
  lemma {:induction false} SplitJoinWords(ws: seq<string>)
    requires forall i :: 0 <= i < |ws| ==> IsWord(ws[i])
    ensures Split(JoinWords(ws)) == ws
    decreases |ws|
  {
    if ws == [] {
    } else if |ws| == 1 {
      SplitWordThen(ws[0], "");
      assert ws[0] + "" == ws[0];
    } else {
      var tail := JoinWords(ws[1..]);
      SplitJoinWords(ws[1..]);
      var sp := " " + tail;
      assert sp[1..] == tail;
      assert Split(sp) == Split(tail);
      SplitWordThen(ws[0], sp);
      assert ws[0] + " " + tail == ws[0] + sp;
      assert [ws[0]] + ws[1..] == ws;
    }
  }

  /** A whitespace character at the end of the text does not change the
      tokens (so a trailing carriage return is invisible to `split()`). */
  lemma {:induction false} SplitTrailingSpace(s: string, c: char)
    requires IsSpace(c)
    ensures Split(s + [c]) == Split(s)
    decreases |s|
  {
    var t := s + [c];
    if s == [] {
      assert t[1..] == [];
    } else if IsSpace(s[0]) {
      assert t[0] == s[0];
      assert t[1..] == s[1..] + [c];
      SplitTrailingSpace(s[1..], c);
    } else {
      assert t[0] == s[0];
      var n := WordLength(s);
      WordLengthUnique(t, n);
      assert t[..n] == s[..n];
      assert t[n..] == s[n..] + [c];
      SplitTrailingSpace(s[n..], c);
    }
  }

  /** Removing the spaces from a space-free prefix keeps it whole. */
  lemma {:induction false} RemoveSpacesWordPrefix(s: string, n: nat)
    requires n <= |s|
    requires forall i :: 0 <= i < n ==> !IsSpace(s[i])
    ensures RemoveSpaces(s) == s[..n] + RemoveSpaces(s[n..])
    decreases n
  {
    if n > 0 {
      RemoveSpacesWordPrefix(s[1..], n - 1);
      assert s[1..][..n - 1] == s[1..n];
      assert s[1..][n - 1..] == s[n..];
      assert [s[0]] + s[1..n] == s[..n];
    }
  }

  /** No character other than whitespace is lost or reordered by `split()`:
      the tokens, concatenated, are the text with its whitespace removed. */
  lemma {:induction false} SplitKeepsContent(s: string)
    ensures Flatten(Split(s)) == RemoveSpaces(s)
    decreases |s|
  {
    if s == [] {
    } else if IsSpace(s[0]) {
      SplitKeepsContent(s[1..]);
    } else {
      var n := WordLength(s);
      SplitKeepsContent(s[n..]);
      var r := [s[..n]] + Split(s[n..]);
      assert r[0] == s[..n];
      assert r[1..] == Split(s[n..]);
      RemoveSpacesWordPrefix(s, n);
    }
  }

  /** Number of occurrences of `c` in `s`. */
  function Count(s: string, c: char): (k: nat)
    ensures k == 0 <==> c !in s
    ensures k <= |s|
  {
    if s == [] then 0
    else (if s[0] == c then 1 else 0) + Count(s[1..], c)
  }

  lemma {:induction false} CountAppend(a: string, b: string, c: char)
    ensures Count(a + b, c) == Count(a, c) + Count(b, c)
    decreases |a|
  {
    if a != [] {
      assert (a + b)[0] == a[0];
      assert (a + b)[1..] == a[1..] + b;
      CountAppend(a[1..], b, c);
    } else {
      assert a + b == b;
    }
  }

  /** Two adjacent occurrences of `c` make at least two occurrences. */
  lemma {:induction false} AdjacentCount(s: string, c: char, i: nat)
    requires i + 1 < |s| && s[i] == c && s[i + 1] == c
    ensures Count(s, c) >= 2
    decreases i
  {
    if i > 0 {
      AdjacentCount(s[1..], c, i - 1);
    } else {
      assert s[1..][0] == c;
    }
  }

  /** `s.split(sep)` for a one-character separator: the pieces between
      consecutive separators, empty pieces included, always at least one. */
  function SplitOn(s: string, sep: char): (parts: seq<string>)
    ensures |parts| == Count(s, sep) + 1
    ensures forall i :: 0 <= i < |parts| ==> sep !in parts[i]
  {
    if s == [] then [""]
    else
      var rest := SplitOn(s[1..], sep);
      if s[0] == sep then [""] + rest
      else [[s[0]] + rest[0]] + rest[1..]
  }

  /** `sep.join(parts)`. */
  function JoinOn(parts: seq<string>, sep: char): string {
    if parts == [] then ""
    else if |parts| == 1 then parts[0]
    else parts[0] + [sep] + JoinOn(parts[1..], sep)
  }

  /** Joining the pieces of `s.split(sep)` with `sep` rebuilds `s`. */
  lemma {:induction false} JoinSplitOn(s: string, sep: char)
    ensures JoinOn(SplitOn(s, sep), sep) == s
    decreases |s|
  {
    if s != [] {
      var rest := SplitOn(s[1..], sep);
      JoinSplitOn(s[1..], sep);
      if s[0] == sep {
        assert ([""] + rest)[1..] == rest;
        assert [sep] + s[1..] == s;
      } else {
        var parts := [[s[0]] + rest[0]] + rest[1..];
        if |rest| == 1 {
          assert [s[0]] + rest[0] == s;
        } else {
          assert parts[1..] == rest[1..];
          assert JoinOn(rest, sep) == rest[0] + [sep] + JoinOn(rest[1..], sep);
          assert [s[0]] + s[1..] == s;
        }
      }
    }
  }

  /** The first separator ends the first piece. */
  lemma {:induction false} SplitOnPrefix(f: string, t: string, sep: char)
    requires sep !in f
    ensures SplitOn(f + [sep] + t, sep) == [f] + SplitOn(t, sep)
    decreases |f|
  {
    var s := f + [sep] + t;
    if f == [] {
      assert s[0] == sep;
      assert s[1..] == t;
    } else {
      assert s[0] == f[0];
      assert s[1..] == f[1..] + [sep] + t;
      SplitOnPrefix(f[1..], t, sep);
      assert [f[0]] + f[1..] == f;
    }
  }

  /** Text without the separator splits into itself alone. */
  lemma SplitOnNone(s: string, sep: char)
    requires sep !in s
    ensures SplitOn(s, sep) == [s]
  {
    JoinSplitOn(s, sep);
  }

  /** Splitting pieces that avoid `sep` after joining them with `sep`
      returns the pieces. */
  lemma {:induction false} SplitOnJoin(parts: seq<string>, sep: char)
    requires |parts| > 0
    requires forall i :: 0 <= i < |parts| ==> sep !in parts[i]
    ensures SplitOn(JoinOn(parts, sep), sep) == parts
    decreases |parts|
  {
    if |parts| == 1 {
      SplitOnNone(parts[0], sep);
    } else {
      SplitOnJoin(parts[1..], sep);
      SplitOnPrefix(parts[0], JoinOn(parts[1..], sep), sep);
      assert [parts[0]] + parts[1..] == parts;
    }
  }

  /** `s.removeprefix(p)`: drops `p` from the front once, if it is there. */
  function RemovePrefix(s: string, p: string): (r: string)
    ensures p <= s ==> s == p + r
    ensures !(p <= s) ==> r == s
  {
    if p <= s then s[|p|..] else s
  }

  /** `s.split('\n')[0]`: the text before the first line feed. */
  function FirstLine(s: string): (line: string)
    ensures '\n' !in line
    ensures line <= s
    ensures |line| < |s| ==> s[|line|] == '\n'
  {
    SplitOnHead(s, '\n');
    SplitOn(s, '\n')[0]
  }

  /** The first piece of `s.split(sep)` is the text before the first `sep`. */
  lemma {:induction false} SplitOnHead(s: string, sep: char)
    ensures SplitOn(s, sep)[0] <= s
    ensures |SplitOn(s, sep)[0]| < |s| ==> s[|SplitOn(s, sep)[0]|] == sep
    decreases |s|
  {
    if s != [] && s[0] != sep {
      SplitOnHead(s[1..], sep);
    }
  }

  /** The first line is determined by where the first line feed is. */
  lemma {:induction false} FirstLineOf(line: string, rest: string)
    requires '\n' !in line
    requires rest == [] || rest[0] == '\n'
    ensures FirstLine(line + rest) == line
  {
    var s := line + rest;
    if rest == [] {
      assert s == line;
      SplitOnNone(line, '\n');
    } else {
      assert s == line + ['\n'] + rest[1..];
      SplitOnPrefix(line, rest[1..], '\n');
    }
    assert SplitOn(s, '\n')[0] == line;
  }
}
