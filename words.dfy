/** Python's `str.split()` (no separator) and `' '.join(...)`, the two string
    operations the subtitle chunker is built from. */
module Words {

  /** The characters Python's `str.split()` treats as whitespace. */
  predicate IsSpace(c: char)
  {
    var n := c as int;
    (0x09 <= n <= 0x0D) || (0x1C <= n <= 0x1F) || n == 0x20 || n == 0x85 || n == 0xA0 ||
    n == 0x1680 || (0x2000 <= n <= 0x200A) || n == 0x2028 || n == 0x2029 ||
    n == 0x202F || n == 0x205F || n == 0x3000
  }

  /** A word as `str.split()` produces it: non-empty, with no whitespace in it. */
  predicate IsWord(w: string)
  {
    |w| > 0 && forall i :: 0 <= i < |w| ==> !IsSpace(w[i])
  }

  predicate AllWords(ws: seq<string>)
  {
    forall i :: 0 <= i < |ws| ==> IsWord(ws[i])
  }

  /** The text has at least one non-whitespace character. */
  predicate HasWord(s: string)
  {
    exists i :: 0 <= i < |s| && !IsSpace(s[i])
  }

  /** Length of the longest whitespace-free prefix of `s`. */
  function WordLength(s: string): (n: nat)
    ensures n <= |s|
    ensures forall i :: 0 <= i < n ==> !IsSpace(s[i])
    ensures n < |s| ==> IsSpace(s[n])
  {
    if s == [] || IsSpace(s[0]) then 0 else 1 + WordLength(s[1..])
  }

  /** `s.split()`: the maximal runs of non-whitespace characters, in order. */
  function Split(s: string): (ws: seq<string>)
    ensures AllWords(ws)
    decreases |s|
  {
    if s == [] then []
    else if IsSpace(s[0]) then Split(s[1..])
    else
      var n := WordLength(s);
      [s[..n]] + Split(s[n..])
  }

  /** Concatenation of a sequence of sequences, in order. */
  function Flatten<T>(gs: seq<seq<T>>): (s: seq<T>)
    ensures |gs| == 1 ==> s == gs[0]
  {
    if |gs| == 0 then [] else gs[0] + Flatten(gs[1..])
  }

  /** The characters of `s` that are not whitespace, in order. */
  function NonSpace(s: string): (t: string)
    ensures forall i :: 0 <= i < |t| ==> !IsSpace(t[i])
  {
    if s == [] then [] else (if IsSpace(s[0]) then [] else [s[0]]) + NonSpace(s[1..])
  }

  /** `' '.join(ws)`: the words, with one space between neighbours. */
  function JoinWords(ws: seq<string>): (s: string)
    ensures |ws| == 0 ==> s == ""
    ensures |ws| > 0 ==> |s| == |Flatten(ws)| + |ws| - 1
  {
    if |ws| == 0 then ""
    else if |ws| == 1 then ws[0]
    else ws[0] + " " + JoinWords(ws[1..])
  }

  /** Splitting keeps every non-whitespace character of the text, in order,
      and nothing else: the words run together are the text with its
      whitespace removed. */
  lemma {:induction false} SplitKeepsNonSpace(s: string)
    ensures Flatten(Split(s)) == NonSpace(s)
    decreases |s|
  {
    if s != [] {
      if IsSpace(s[0]) {
        SplitKeepsNonSpace(s[1..]);
      } else {
        var n := WordLength(s);
        var rest := Split(s[n..]);
        assert ([s[..n]] + rest)[1..] == rest;
        SplitKeepsNonSpace(s[n..]);
        NonSpacePrefix(s, n);
      }
    }
  }

  /** Removing whitespace leaves a whitespace-free prefix as it is. */
  lemma {:induction false} NonSpacePrefix(s: string, n: nat)
    requires n <= |s|
    requires forall i :: 0 <= i < n ==> !IsSpace(s[i])
    ensures NonSpace(s) == s[..n] + NonSpace(s[n..])
    decreases n
  {
    if n > 0 {
      NonSpacePrefix(s[1..], n - 1);
      assert s[1..][n - 1..] == s[n..];
      assert [s[0]] + s[1..][..n - 1] == s[..n];
    }
  }

  /** A text has no words exactly when every character of it is whitespace. */
  lemma {:induction false} SplitEmptyIff(s: string)
    ensures Split(s) == [] <==> forall i :: 0 <= i < |s| ==> IsSpace(s[i])
    decreases |s|
  {
    if s != [] {
      if IsSpace(s[0]) {
        SplitEmptyIff(s[1..]);
        assert forall i :: 1 <= i < |s| ==> s[i] == s[1..][i - 1];
      } else {
        assert Split(s) != [];
      }
    }
  }

  /** A word followed by whitespace (or nothing) is split off as one piece. */
  lemma {:induction false} SplitWordThen(w: string, t: string)
    requires IsWord(w)
    requires t == [] || IsSpace(t[0])
    ensures Split(w + t) == [w] + Split(t)
  {
    WordLengthOf(w, t);
    assert (w + t)[..|w|] == w;
    assert (w + t)[|w|..] == t;
  }

  lemma {:induction false} WordLengthOf(w: string, t: string)
    requires forall i :: 0 <= i < |w| ==> !IsSpace(w[i])
    requires t == [] || IsSpace(t[0])
    ensures WordLength(w + t) == |w|
    decreases |w|
  {
    if w != [] {
      assert (w + t)[1..] == w[1..] + t;
      WordLengthOf(w[1..], t);
    }
  }

  /** Splitting the space-joined words gives back the words: `' '.join` is a
      right inverse of `str.split()` on well-formed word lists. */
  lemma {:induction false} SplitJoinWords(ws: seq<string>)
    requires AllWords(ws)
    ensures Split(JoinWords(ws)) == ws
    decreases |ws|
  {
    if |ws| == 1 {
      SplitWordThen(ws[0], "");
      assert ws[0] + "" == ws[0];
    } else if |ws| > 1 {
      var rest := JoinWords(ws[1..]);
      SplitJoinWords(ws[1..]);
      JoinWordsCons(ws);
      SplitWordThen(ws[0], " " + rest);
      SplitSpaceThen(rest);
      assert [ws[0]] + ws[1..] == ws;
    }
  }

  lemma JoinWordsCons(ws: seq<string>)
    requires |ws| > 1
    ensures JoinWords(ws) == ws[0] + (" " + JoinWords(ws[1..]))
  {
    assert ws[0] + " " + JoinWords(ws[1..]) == ws[0] + (" " + JoinWords(ws[1..]));
  }

  /** A leading space is dropped by splitting. */
  lemma SplitSpaceThen(s: string)
    ensures Split(" " + s) == Split(s)
  {
    assert (" " + s)[1..] == s;
  }
}
