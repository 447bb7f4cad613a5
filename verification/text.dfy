/**
 * The three Python `str` operations the poll parser relies on, on `seq<char>`:
 * `strip()` with no argument, `split(',')` with an explicit separator and
 * `split()` with no argument (runs of whitespace).
 */
module Text {

  /** Python's `str.isspace()` for one character: the characters `strip()` and `split()` treat as whitespace. */
  predicate IsSpace(c: char)
  {
    || c == ' ' || c == '\t' || c == '\n' || c == '\r'
    || c == '\U{000B}' || c == '\U{000C}'
    || ('\U{001C}' <= c <= '\U{001F}')
    || c == '\U{0085}' || c == '\U{00A0}' || c == '\U{1680}'
    || ('\U{2000}' <= c <= '\U{200A}')
    || c == '\U{2028}' || c == '\U{2029}' || c == '\U{202F}' || c == '\U{205F}' || c == '\U{3000}'
  }

  predicate AllSpace(s: string)
  {
    forall i :: 0 <= i < |s| ==> IsSpace(s[i])
  }

  predicate NoSpace(s: string)
  {
    forall i :: 0 <= i < |s| ==> !IsSpace(s[i])
  }

  // ---------------------------------------------------------------------------
  // strip()
  // ---------------------------------------------------------------------------

  /** The number of whitespace characters `s` starts with. */
  function LeadingSpaces(s: string): (n: nat)
    ensures n <= |s|
    ensures forall i :: 0 <= i < n ==> IsSpace(s[i])
    ensures n < |s| ==> !IsSpace(s[n])
  {
    if |s| > 0 && IsSpace(s[0]) then 1 + LeadingSpaces(s[1..]) else 0
  }

  /** The number of whitespace characters `s` ends with. */
  function TrailingSpaces(s: string): (n: nat)
    ensures n <= |s|
    ensures forall i :: |s| - n <= i < |s| ==> IsSpace(s[i])
    ensures n < |s| ==> !IsSpace(s[|s| - n - 1])
  {
    if |s| > 0 && IsSpace(s[|s| - 1]) then 1 + TrailingSpaces(s[..|s| - 1]) else 0
  }

  /**
   * `r` is the slice `s[lo..hi]` of `s`, everything before and after it is
   * whitespace, and the slice neither starts nor ends with whitespace.
   */
  predicate StripsAt(s: string, r: string, lo: nat, hi: nat)
  {
    && lo <= hi <= |s| && r == s[lo..hi]
    && (forall i :: 0 <= i < lo ==> IsSpace(s[i]))
    && (forall i :: hi <= i < |s| ==> IsSpace(s[i]))
    && (r == [] || (!IsSpace(r[0]) && !IsSpace(r[|r| - 1])))
  }

  /** `r` is what Python's `s.strip()` returns: a slice of `s` cut as `StripsAt` describes. */
  predicate IsStripOf(s: string, r: string)
  {
    exists lo: nat, hi: nat :: lo <= hi <= |s| && StripsAt(s, r, lo, hi)
  }

  /** Python's `s.strip()`; it is empty exactly for a blank line. */
  function Strip(s: string): (r: string)
    ensures IsStripOf(s, r)
    ensures r == [] <==> AllSpace(s)
  {
    var lo := LeadingSpaces(s);
    var hi := if lo == |s| then |s| else |s| - TrailingSpaces(s);
    assert lo <= hi;
    var r := s[lo..hi];
    assert r != [] ==> r[0] == s[lo] && r[|r| - 1] == s[hi - 1];
    assert StripsAt(s, r, lo, hi);
    r
  }

  /** Any two slices satisfying `IsStripOf` coincide: `strip()` is fully determined by that description. */
  lemma {:induction false} StripUnique(s: string, r1: string, r2: string)
    requires IsStripOf(s, r1) && IsStripOf(s, r2)
    ensures r1 == r2
  {
    var lo1, hi1 := StripBoundsOf(s, r1);
    var lo2, hi2 := StripBoundsOf(s, r2);
    if r1 != [] && r2 != [] {
      assert lo1 == lo2;
      assert hi1 == hi2;
    }
  }

  /** The bounds of a slice described by `IsStripOf`; it is empty exactly when `s` is blank. */
  lemma {:induction false} StripBoundsOf(s: string, r: string) returns (lo: nat, hi: nat)
    requires IsStripOf(s, r)
    ensures lo <= hi <= |s| && r == s[lo..hi]
    ensures forall i :: 0 <= i < lo ==> IsSpace(s[i])
    ensures forall i :: hi <= i < |s| ==> IsSpace(s[i])
    ensures r != [] ==> !IsSpace(s[lo]) && !IsSpace(s[hi - 1])
    ensures r == [] <==> AllSpace(s)
  {
    lo, hi :| lo <= hi <= |s| && StripsAt(s, r, lo, hi);
    if r != [] {
      assert r[0] == s[lo] && r[|r| - 1] == s[hi - 1];
    }
  }

  // ---------------------------------------------------------------------------
  // split(sep)
  // ---------------------------------------------------------------------------

  /** The inverse of `split(sep)`: Python's `sep.join(parts)`. */
  function Join(parts: seq<string>, sep: char): string
    requires |parts| >= 1
  {
    if |parts| == 1 then parts[0] else parts[0] + [sep] + Join(parts[1..], sep)
  }

  /** The number of occurrences of `c` in `s`. */
  function Count(s: string, c: char): nat
  {
    if s == [] then 0 else (if s[0] == c then 1 else 0) + Count(s[1..], c)
  }

  /**
   * Python's `s.split(sep)` for a one-character separator: the pieces between
   * consecutive separators, none of which contains the separator, which joined
   * back with the separator give `s` again. There is always one piece more than
   * there are separators.
   */
  function SplitOn(s: string, sep: char): (parts: seq<string>)
    ensures |parts| == Count(s, sep) + 1
    ensures forall i :: 0 <= i < |parts| ==> sep !in parts[i]
    ensures Join(parts, sep) == s
  {
    if s == [] then [[]]
    else
      var rest := SplitOn(s[1..], sep);
      if s[0] == sep then
        [[]] + rest
      else
        var parts := [[s[0]] + rest[0]] + rest[1..];
        assert parts[1..] == rest[1..];
        parts
  }

  /** Splitting a joined sequence of separator-free pieces gives the pieces back. */
  lemma {:induction false} SplitJoin(parts: seq<string>, sep: char)
    requires |parts| >= 1
    requires forall i :: 0 <= i < |parts| ==> sep !in parts[i]
    ensures SplitOn(Join(parts, sep), sep) == parts
  {
    if |parts| == 1 {
      SplitNoSeparator(parts[0], sep);
    } else {
      SplitJoin(parts[1..], sep);
      SplitPrefix(parts[0], Join(parts[1..], sep), sep);
    }
  }

  lemma {:induction false} SplitNoSeparator(s: string, sep: char)
    requires sep !in s
    ensures SplitOn(s, sep) == [s]
  {
    if s != [] {
      SplitNoSeparator(s[1..], sep);
    }
  }

  /** A separator-free head followed by a separator and a tail splits into the head and the tail's pieces. */
  lemma {:induction false} SplitPrefix(head: string, tail: string, sep: char)
    requires sep !in head
    ensures SplitOn(head + [sep] + tail, sep) == [head] + SplitOn(tail, sep)
  {
    var s := head + [sep] + tail;
    if head != [] {
      assert s[0] == head[0] != sep;
      assert s[1..] == head[1..] + [sep] + tail;
      assert sep !in head[1..];
      SplitPrefix(head[1..], tail, sep);
      assert [head[0]] + head[1..] == head;
    } else {
      assert s[1..] == tail;
    }
  }

  // ---------------------------------------------------------------------------
  // split()
  // ---------------------------------------------------------------------------

  /** The length of the longest prefix of `s` holding no whitespace. */
  function WordLength(s: string): (n: nat)
    ensures n <= |s|
    ensures forall i :: 0 <= i < n ==> !IsSpace(s[i])
    ensures n < |s| ==> IsSpace(s[n])
  {
    if s == [] || IsSpace(s[0]) then 0 else 1 + WordLength(s[1..])
  }

  /** A token of `split()`: non-empty and free of whitespace. */
  predicate IsWord(w: string)
  {
    w != [] && NoSpace(w)
  }

  /**
   * Python's `s.split()` with no argument: the maximal runs of non-whitespace
   * characters, in order. It is empty exactly when `s` is all whitespace.
   */
  function Words(s: string): (ws: seq<string>)
    ensures forall i :: 0 <= i < |ws| ==> IsWord(ws[i])
    ensures ws == [] <==> AllSpace(s)
    decreases |s|
  {
    if s == [] then []
    else if IsSpace(s[0]) then
      var ws := Words(s[1..]);
      assert AllSpace(s[1..]) ==> AllSpace(s) by {
        if AllSpace(s[1..]) {
          forall i | 0 <= i < |s| ensures IsSpace(s[i]) {
            if i > 0 { assert s[i] == s[1..][i - 1]; }
          }
        }
      }
      ws
    else
      var n := WordLength(s);
      [s[..n]] + Words(s[n..])
  }

  /** A word followed by nothing or by whitespace is `split()`'s first token. */
  lemma {:induction false} WordsOfWordThen(w: string, tail: string)
    requires IsWord(w)
    requires tail == [] || IsSpace(tail[0])
    ensures Words(w + tail) == [w] + Words(tail)
  {
    var s := w + tail;
    WordLengthOfWord(w, tail);
    assert s[..|w|] == w;
    assert s[|w|..] == tail;
  }


  /** A word followed by nothing or by whitespace is taken whole. */
  lemma {:induction false} WordLengthOfWord(w: string, tail: string)
    requires IsWord(w)
    requires tail == [] || IsSpace(tail[0])
    ensures WordLength(w + tail) == |w|
    ensures (w + tail) != [] && !IsSpace((w + tail)[0])
  {
    var s := w + tail;
    assert forall i :: 0 <= i < |w| ==> s[i] == w[i];
    assert |tail| > 0 ==> s[|w|] == tail[0];
  }

  /**
   * Tokens laid out with whitespace around them: `gaps[i]` is the whitespace
   * run before token `ws[i]`, the last gap ends the text, and the gaps between
   * two tokens are non-empty. Leading and trailing gaps may be empty.
   */
  predicate IsLayout(gaps: seq<string>, ws: seq<string>)
  {
    && |gaps| == |ws| + 1
    && (forall i :: 0 <= i < |gaps| ==> AllSpace(gaps[i]))
    && (forall i :: 0 < i < |ws| ==> gaps[i] != [])
    && (forall i :: 0 <= i < |ws| ==> IsWord(ws[i]))
  }

  /** The text a layout describes: `gaps[0] + ws[0] + gaps[1] + ... + ws[n - 1] + gaps[n]`. */
  function Interleave(gaps: seq<string>, ws: seq<string>): string
    requires |gaps| == |ws| + 1
  {
    if ws == [] then gaps[0] else gaps[0] + ws[0] + Interleave(gaps[1..], ws[1..])
  }

  /** `split()` of any layout gives exactly its tokens, whatever whitespace surrounds them. */
  lemma {:induction false} WordsOfLayout(gaps: seq<string>, ws: seq<string>)
    requires IsLayout(gaps, ws)
    ensures Words(Interleave(gaps, ws)) == ws
  {
    if ws != [] {
      var w := ws[0];
      var rest := Interleave(gaps[1..], ws[1..]);
      LayoutTail(gaps, ws);
      WordsOfLayout(gaps[1..], ws[1..]);
      WordsOfWordThen(w, rest);
      WordsOfSpacesThen(gaps[0], w + rest);
      assert Interleave(gaps, ws) == gaps[0] + (w + rest);
      assert [w] + ws[1..] == ws;
    }
  }

  /** Past its first gap and token, a layout is a layout again, and its text starts with whitespace or is empty. */
  lemma LayoutTail(gaps: seq<string>, ws: seq<string>)
    requires IsLayout(gaps, ws) && ws != []
    ensures IsWord(ws[0]) && AllSpace(gaps[0])
    ensures IsLayout(gaps[1..], ws[1..])
    ensures var rest := Interleave(gaps[1..], ws[1..]); rest == [] || IsSpace(rest[0])
  {
    assert IsLayout(gaps[1..], ws[1..]) by {
      assert forall i :: 0 <= i < |gaps[1..]| ==> gaps[1..][i] == gaps[i + 1];
      assert forall i :: 0 <= i < |ws[1..]| ==> ws[1..][i] == ws[i + 1];
    }
    if |ws| >= 2 {
      assert gaps[1] != [] && IsSpace(gaps[1][0]);
      assert Interleave(gaps[1..], ws[1..])[0] == gaps[1][0];
    }
  }

  /** Leading whitespace adds no token. */
  lemma {:induction false} WordsOfSpacesThen(sp: string, rest: string)
    requires AllSpace(sp)
    ensures Words(sp + rest) == Words(rest)
    decreases |sp|
  {
    if sp != [] {
      var s := sp + rest;
      assert s[0] == sp[0];
      assert s[1..] == sp[1..] + rest;
      assert Words(s) == Words(s[1..]);
      WordsOfSpacesThen(sp[1..], rest);
    } else {
      assert sp + rest == rest;
    }
  }

  /** Every text is its `split()` tokens laid out with whitespace: the layout's gaps exist. */
  lemma {:induction false} LayoutOfWords(s: string) returns (gaps: seq<string>)
    ensures IsLayout(gaps, Words(s)) && Interleave(gaps, Words(s)) == s
    decreases |s|
  {
    if s == [] {
      gaps := [[]];
    } else if IsSpace(s[0]) {
      var g := LayoutOfWords(s[1..]);
      gaps := LayoutAfterSpace(s[0], s[1..], g);
      assert s == [s[0]] + s[1..];
    } else {
      var n := WordLength(s);
      var g := LayoutOfWords(s[n..]);
      gaps := LayoutAfterWord(s[..n], s[n..], g);
      assert s == s[..n] + s[n..];
    }
  }

  /** A whitespace character joins the layout's first gap. */
  lemma {:induction false} LayoutAfterSpace(c: char, rest: string, g: seq<string>) returns (gaps: seq<string>)
    requires IsSpace(c)
    requires IsLayout(g, Words(rest)) && Interleave(g, Words(rest)) == rest
    ensures Words([c] + rest) == Words(rest)
    ensures IsLayout(gaps, Words(rest)) && Interleave(gaps, Words(rest)) == [c] + rest
  {
    gaps := [[c] + g[0]] + g[1..];
    WordsOfSpacesThen([c], rest);
    WiderGapLayout(c, g, Words(rest));
    InterleaveWiderGap(c, g, Words(rest));
  }

  /** Widening the first gap by a whitespace character keeps a layout. */
  lemma WiderGapLayout(c: char, g: seq<string>, ws: seq<string>)
    requires IsSpace(c) && IsLayout(g, ws)
    ensures IsLayout([[c] + g[0]] + g[1..], ws)
  {
    var gaps := [[c] + g[0]] + g[1..];
    assert forall i :: 1 <= i < |gaps| ==> gaps[i] == g[i];
    assert forall i :: 1 <= i < |gaps[0]| ==> gaps[0][i] == g[0][i - 1];
  }

  /** Widening the first gap by one character widens the text by that character. */
  lemma InterleaveWiderGap(c: char, g: seq<string>, ws: seq<string>)
    requires |g| == |ws| + 1
    ensures Interleave([[c] + g[0]] + g[1..], ws) == [c] + Interleave(g, ws)
  {
    var gaps := [[c] + g[0]] + g[1..];
    assert gaps[0] == [c] + g[0] && gaps[1..] == g[1..];
  }

  /** A token followed by whitespace or nothing becomes the layout's first token, after an empty gap. */
  lemma {:induction false} LayoutAfterWord(w: string, rest: string, g: seq<string>) returns (gaps: seq<string>)
    requires IsWord(w) && (rest == [] || IsSpace(rest[0]))
    requires IsLayout(g, Words(rest)) && Interleave(g, Words(rest)) == rest
    ensures Words(w + rest) == [w] + Words(rest)
    ensures IsLayout(gaps, [w] + Words(rest)) && Interleave(gaps, [w] + Words(rest)) == w + rest
  {
    var wr := Words(rest);
    WordsOfWordThen(w, rest);
    assert wr != [] ==> g[0] != [];
    gaps := [[]] + g;
    TokenFirstLayout(w, g, wr);
  }

  /** A token put in front of a layout whose first gap is non-empty (or which has no token) gives a layout. */
  lemma TokenFirstLayout(w: string, g: seq<string>, wr: seq<string>)
    requires IsWord(w) && IsLayout(g, wr) && (wr != [] ==> g[0] != [])
    ensures IsLayout([[]] + g, [w] + wr)
    ensures Interleave([[]] + g, [w] + wr) == w + Interleave(g, wr)
  {
    var gaps, ws := [[]] + g, [w] + wr;
    assert gaps[1..] == g && ws[1..] == wr;
    assert forall i :: 1 <= i < |gaps| ==> gaps[i] == g[i - 1];
    assert forall i :: 1 <= i < |ws| ==> ws[i] == wr[i - 1];
  }
}
