/** The Python built-ins the detectors rely on, written out with the semantics
    CPython gives them: `None`, `abs`, `min`, `int()` on a float, slicing with
    negative indices, `str.strip`, `str.split`, `str.join`, `str.replace` and
    `str()` of a natural number. */
module Py {

  /** Python's `Optional[T]`: a value or `None`. */
  datatype Option<+T> = None | Some(value: T) {
    function GetOr(default: T): T {
      if Some? then value else default
    }
  }

  function Abs(x: int): nat {
    if x < 0 then -x else x
  }

  /** `min(a, b)` on floats: the first argument wins a tie. */
  function MinReal(a: real, b: real): (m: real)
    ensures m <= a && m <= b
    ensures m == a || m == b
  {
    if b < a then b else a
  }

  /** `int(r)` on a float truncates toward zero. */
  function Trunc(r: real): (t: int)
    ensures 0.0 <= r ==> t as real <= r < t as real + 1.0
    ensures r < 0.0 ==> t as real - 1.0 < r <= t as real
  {
    if 0.0 <= r then r.Floor else -((-r).Floor)
  }

  ghost predicate NoDuplicates<T>(s: seq<T>) {
    forall i, j :: 0 <= i < j < |s| ==> s[i] != s[j]
  }

  // ---------------------------------------------------------------------------
  // Slicing

  /** How one bound of `s[start:stop]` is normalised for a sequence of length
      `len`: a negative bound counts from the end, then the bound is clamped
      to `0..len`. */
  function SliceIndex(len: nat, i: int): (j: nat)
    ensures j <= len
    ensures 0 <= i <= len ==> j == i
    ensures -(len as int) <= i < 0 ==> j == len + i
  {
    if i < 0 then (if i + len < 0 then 0 else i + len)
    else if i > len then len
    else i
  }

  /** The index range `lo..hi` that `s[start:stop]` selects; it is empty
      (`lo == hi`) when the normalised stop does not lie after the start. */
  function SliceBounds(len: nat, start: int, stop: int): (b: (nat, nat))
    ensures b.0 <= b.1 <= len
    ensures 0 <= start <= stop <= len ==> b == (start, stop)
    ensures b.1 - b.0 == (if SliceIndex(len, start) < SliceIndex(len, stop)
                          then SliceIndex(len, stop) - SliceIndex(len, start) else 0)
  {
    var lo := SliceIndex(len, start);
    var hi := SliceIndex(len, stop);
    (lo, if hi < lo then lo else hi)
  }

  // ---------------------------------------------------------------------------
  // Strings

  /** `str.isspace()` for one character. */
  predicate IsSpace(c: char) {
    ('\t' <= c <= '\r') || ('\U{1c}' <= c <= ' ') || c == '\U{85}' || c == '\U{a0}'
    || c == '\U{1680}' || ('\U{2000}' <= c <= '\U{200a}') || c == '\U{2028}' || c == '\U{2029}'
    || c == '\U{202f}' || c == '\U{205f}' || c == '\U{3000}'
  }

  predicate NoSpace(s: string) {
    forall k :: 0 <= k < |s| ==> !IsSpace(s[k])
  }

  function StripLeft(s: string): (r: string)
    ensures |r| <= |s|
    ensures r != [] ==> !IsSpace(r[0])
  {
    if s != [] && IsSpace(s[0]) then StripLeft(s[1..]) else s
  }

  function StripRight(s: string): (r: string)
    ensures |r| <= |s|
    ensures r != [] ==> r[0] == s[0] && !IsSpace(r[|r| - 1])
  {
    if s != [] && IsSpace(s[|s| - 1]) then StripRight(s[..|s| - 1]) else s
  }

  /** `str.strip()`: drops the leading and trailing whitespace, keeps the rest. */
  function Strip(s: string): (r: string)
    ensures |r| <= |s|
    ensures r == [] || (!IsSpace(r[0]) && !IsSpace(r[|r| - 1]))
    ensures s == [] || (!IsSpace(s[0]) && !IsSpace(s[|s| - 1])) ==> r == s
  {
    StripRight(StripLeft(s))
  }

  /** The length of the run of non-whitespace characters that starts `s`. */
  function WordLength(s: string): (n: nat)
    ensures n <= |s|
    ensures forall k :: 0 <= k < n ==> !IsSpace(s[k])
    ensures n < |s| ==> IsSpace(s[n])
  {
    if s == [] || IsSpace(s[0]) then 0 else 1 + WordLength(s[1..])
  }

  /** `str.split()` with no separator: the maximal runs of non-whitespace
      characters, in order. */
  function Split(s: string): (words: seq<string>)
    ensures forall k :: 0 <= k < |words| ==> words[k] != [] && NoSpace(words[k])
    decreases |s|
  {
    var t := StripLeft(s);
    if t == [] then []
    else
      var n := WordLength(t);
      [t[..n]] + Split(t[n..])
  }

  /** `sep.join(parts)`. */
  function Join(parts: seq<string>, sep: string): string {
    if parts == [] then ""
    else if |parts| == 1 then parts[0]
    else parts[0] + sep + Join(parts[1..], sep)
  }

  /** `s.split(c)` for a one-character separator: the pieces between the
      occurrences of `c`, empty pieces included. */
  function SplitOn(s: string, c: char): (parts: seq<string>)
    ensures |parts| >= 1
  {
    if s == [] then [""]
    else
      var rest := SplitOn(s[1..], c);
      if s[0] == c then [""] + rest else [[s[0]] + rest[0]] + rest[1..]
  }

  /** A piece free of the separator is split off whole. */
  lemma {:induction false} SplitOnPiece(w: string, c: char, t: string)
    requires c !in w
    ensures SplitOn(w + [c] + t, c) == [w] + SplitOn(t, c)
    ensures SplitOn(w, c) == [w]
  {
    if w == [] {
      assert ([c] + t)[1..] == t;
    } else {
      SplitOnPiece(w[1..], c, t);
      assert (w + [c] + t)[1..] == w[1..] + [c] + t;
      assert [w[0]] + w[1..] == w;
    }
  }

  /** Padding a word with at most one space on each side is undone by
      `strip`. */
  lemma StripPadded(lead: string, w: string, trail: string)
    requires lead == "" || lead == " "
    requires trail == "" || trail == " "
    requires w != [] && !IsSpace(w[0]) && !IsSpace(w[|w| - 1])
    ensures Strip(lead + w + trail) == w
  {
    StripLeftPadded(lead, w + trail);
    assert lead + w + trail == lead + (w + trail);
    StripRightPadded(w, trail);
  }

  lemma StripLeftPadded(lead: string, s: string)
    requires lead == "" || lead == " "
    requires s != [] && !IsSpace(s[0])
    ensures StripLeft(lead + s) == s
  {
    if lead == " " {
      assert (lead + s)[1..] == s;
    } else {
      assert lead + s == s;
    }
  }

  lemma StripRightPadded(w: string, trail: string)
    requires trail == "" || trail == " "
    requires w != [] && !IsSpace(w[|w| - 1])
    ensures StripRight(w + trail) == w
  {
    if trail == " " {
      assert (w + trail)[..|w|] == w;
    } else {
      assert w + trail == w;
    }
  }

  lemma SeqAssoc<T>(a: seq<T>, b: seq<T>, c: seq<T>)
    ensures a + b + c == a + (b + c)
  {
  }

  lemma SeqAssoc3<T>(a: seq<T>, b: seq<T>, c: seq<T>, d: seq<T>)
    ensures a + b + c + d == a + (b + c + d)
  {
  }

  /** `str.replace` for one character replaced by another. */
  function Replace(s: string, from: char, to: char): (r: string)
    ensures |r| == |s|
    ensures forall k :: 0 <= k < |s| ==> r[k] == (if s[k] == from then to else s[k])
  {
    if s == [] then [] else [if s[0] == from then to else s[0]] + Replace(s[1..], from, to)
  }

  /** `str(n)` for a natural number: its decimal digits. */
  function NatToString(n: nat): (s: string)
    ensures s != [] && forall k :: 0 <= k < |s| ==> '0' <= s[k] <= '9'
  {
    var d := [(('0' as int) + n % 10) as char];
    if n < 10 then d else NatToString(n / 10) + d
  }

  /** Splitting a text made by joining non-empty, whitespace-free words with
      single spaces gives back exactly those words. */
  lemma {:induction false} SplitJoin(words: seq<string>)
    requires forall k :: 0 <= k < |words| ==> words[k] != [] && NoSpace(words[k])
    ensures Split(Join(words, " ")) == words
  {
    if |words| == 1 {
      SplitWord(words[0], "");
      assert words[0] + "" == words[0];
    } else if |words| > 1 {
      var rest := Join(words[1..], " ");
      assert Join(words, " ") == words[0] + (" " + rest);
      SplitWord(words[0], " " + rest);
      SplitSpace(rest);
      SplitJoin(words[1..]);
      HeadTail(words);
    }
  }

  lemma HeadTail<T>(s: seq<T>)
    requires s != []
    ensures [s[0]] + s[1..] == s
  {
  }

  /** A word followed by whitespace (or nothing) splits off as the first token. */
  lemma SplitWord(w: string, tail: string)
    requires w != [] && NoSpace(w)
    requires tail == [] || IsSpace(tail[0])
    ensures Split(w + tail) == [w] + Split(tail)
  {
    var j := w + tail;
    assert StripLeft(j) == j;
    WordLengthOfWord(w, tail);
    assert j[..|w|] == w;
    assert j[|w|..] == tail;
  }

  lemma SplitSpace(s: string)
    ensures Split(" " + s) == Split(s)
  {
    assert (" " + s)[1..] == s;
    assert StripLeft(" " + s) == StripLeft(s);
  }

  lemma {:induction false} WordLengthOfWord(w: string, tail: string)
    requires NoSpace(w)
    requires tail == [] || IsSpace(tail[0])
    ensures WordLength(w + tail) == |w|
    decreases |w|
  {
    if w != [] {
      assert (w + tail)[1..] == w[1..] + tail;
      WordLengthOfWord(w[1..], tail);
    } else {
      assert w + tail == tail;
    }
  }
}
