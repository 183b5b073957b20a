/** The text helpers shared by the WCAG 3.1.1 and 3.1.2 checks: the page
    language as declared on `<html>`, the cleaning of a text down to its words
    (URLs and e-mail addresses removed first), the word count, and the gate
    that turns the language identifier's guess into a prediction. */
module Utils31 {
  import opened Py

  /** The languages the identifier is restricted to, by their codes. */
  const Languages: seq<string> := ["nl", "fr", "de", "en"]

  /** The same four languages as values. */
  datatype Language = Nl | Fr | De | En {
    function Code(): string {
      match this
      case Nl => "nl"
      case Fr => "fr"
      case De => "de"
      case En => "en"
    }
  }

  const MinLanguageProbability: real := 0.8

  // ---------------------------------------------------------------------------
  // Declared language

  /** `get_html_language` on the value of `document.documentElement.lang`:
      nothing when it is shorter than two characters, else its first two. */
  function HtmlLanguage(lang: string): (r: Option<string>)
    ensures r.None? <==> |lang| < 2
    ensures r.Some? ==> |r.value| == 2 && r.value == lang[..2]
  {
    if |lang| < 2 then None else Some(lang[..2])
  }

  // ---------------------------------------------------------------------------
  // Character classes of the three regular expressions

  /** `\d` on the Latin-1 range: the decimal digits. */
  predicate IsDigit(c: char) {
    '0' <= c <= '9'
  }

  /** `\w` on the Latin-1 range: the characters `str.isalnum` accepts, and `_`.
      No character above U+00FF is accepted. */
  predicate IsWordChar(c: char) {
    IsDigit(c) || ('a' <= c <= 'z') || ('A' <= c <= 'Z') || c == '_'
    || c == '\U{aa}' || c == '\U{b2}' || c == '\U{b3}' || c == '\U{b5}' || c == '\U{b9}'
    || c == '\U{ba}' || ('\U{bc}' <= c <= '\U{be}')
    || ('\U{c0}' <= c <= '\U{ff}' && c != '\U{d7}' && c != '\U{f7}')
  }

  predicate IsAsciiAlnum(c: char) {
    IsDigit(c) || ('a' <= c <= 'z') || ('A' <= c <= 'Z')
  }

  /** The bracketed character classes: after the URL scheme
      (`[-_.?&~;+=/#0-9A-Za-z]`), of an e-mail's local part and tail
      (`[-_.0-9A-Za-z]`), of the first run of its domain (`[-_0-9A-Za-z]`),
      and `\w`. */
  datatype CharClass = UrlChar | LocalChar | DomainChar | WordChar

  predicate InClass(c: char, cls: CharClass) {
    match cls
    case UrlChar => IsAsciiAlnum(c) || c in "-_.?&~;+=/#"
    case LocalChar => IsAsciiAlnum(c) || c in "-_."
    case DomainChar => IsAsciiAlnum(c) || c in "-_"
    case WordChar => IsWordChar(c)
  }

  /** The length of the longest prefix of `s` inside the class. */
  function Run(s: string, cls: CharClass): (n: nat)
    ensures n <= |s|
    ensures forall k :: 0 <= k < n ==> InClass(s[k], cls)
    ensures n < |s| ==> !InClass(s[n], cls)
  {
    if s == [] || !InClass(s[0], cls) then 0 else 1 + Run(s[1..], cls)
  }

  function MinNat(a: nat, b: nat): nat {
    if a < b then a else b
  }

  predicate StartsWith(s: string, prefix: string) {
    |prefix| <= |s| && s[..|prefix|] == prefix
  }

  // ---------------------------------------------------------------------------
  // URL and e-mail removal

  /** The two patterns `clean_text` deletes. */
  datatype Pattern = Url | Email

  /** The length of the match the pattern makes when it is tried at the start
      of `s` (the regular-expression engine's first match there, with its
      greedy repetitions and backtracking), or `None`. */
  function MatchAt(s: string, pat: Pattern): (r: Option<nat>)
    ensures r.Some? ==> 1 <= r.value <= |s|
  {
    match pat
    case Url => UrlAt(s)
    case Email => EmailAt(s)
  }

  /** `(https?://|www)[-_.?&~;+=/#0-9A-Za-z]{1,2076}`: a scheme or `www`, then
      between 1 and 2076 characters of the class. */
  function UrlAt(s: string): (r: Option<nat>)
    ensures r.Some? ==> 4 <= r.value <= |s|
  {
    var scheme :=
      if StartsWith(s, "https://") then 8
      else if StartsWith(s, "http://") then 7
      else if StartsWith(s, "www") then 3
      else 0;
    if scheme == 0 then None
    else
      var n := MinNat(Run(s[scheme..], UrlChar), 2076);
      if n >= 1 then Some(scheme + n) else None
  }

  /** `[-_.0-9A-Za-z]{1,64}@[-_0-9A-Za-z]{1,255}[-_.0-9A-Za-z]{1,255}`: the local
      part must reach the `@` within 64 characters; after it the greedy
      domain run gives back its last character when nothing else can follow. */
  function EmailAt(s: string): (r: Option<nat>)
    ensures r.Some? ==> 4 <= r.value <= |s|
  {
    var local := Run(s, LocalChar);
    if 1 <= local <= 64 && local < |s| && s[local] == '@' then
      var at := local + 1;
      var all := Run(s[at..], DomainChar);
      var head := MinNat(all, 255);
      var tail := MinNat(Run(s[at + head..], LocalChar), 255);
      if all >= 1 && tail >= 1 then Some(at + head + tail)
      else if all >= 2 then Some(at + head)
      else None
    else None
  }

  /** `pattern.sub("", s)`: scanning left to right, every match is deleted
      and the scan resumes after it; other characters are kept. */
  function Remove(s: string, pat: Pattern): (r: string)
    ensures |r| <= |s|
    decreases |s|
  {
    if s == [] then []
    else
      match MatchAt(s, pat)
      case Some(n) => Remove(s[n..], pat)
      case None => [s[0]] + Remove(s[1..], pat)
  }

  /** Text without a match anywhere is left alone. */
  lemma {:induction false} RemoveNothing(s: string, pat: Pattern)
    requires forall k :: 0 <= k < |s| ==> MatchAt(s[k..], pat).None?
    ensures Remove(s, pat) == s
    decreases |s|
  {
    if s != [] {
      assert s[0..] == s;
      forall k | 0 <= k < |s| - 1
        ensures MatchAt(s[1..][k..], pat).None?
      {
        assert s[1..][k..] == s[k + 1..];
      }
      RemoveNothing(s[1..], pat);
    }
  }

  // ---------------------------------------------------------------------------
  // Words

  /** A match of `\b[^\d\W]+\b`: word characters, none a digit. */
  predicate Token(w: string) {
    w != [] && forall k :: 0 <= k < |w| ==> IsWordChar(w[k]) && !IsDigit(w[k])
  }

  predicate NoDigit(w: string) {
    forall k :: 0 <= k < |w| ==> !IsDigit(w[k])
  }

  /** `WORD_REGEX.findall(s)`. The pattern can only start where a word begins
      and end where it ends, so its matches are the maximal runs of word
      characters that contain no digit. */
  function Words(s: string): (ws: seq<string>)
    ensures forall k :: 0 <= k < |ws| ==> Token(ws[k])
    decreases |s|
  {
    if s == [] then []
    else if !IsWordChar(s[0]) then Words(s[1..])
    else
      var n := Run(s, WordChar);
      if NoDigit(s[..n]) then [s[..n]] + Words(s[n..]) else Words(s[n..])
  }

  /** The words `clean_text` keeps: those of the text once URLs and then
      e-mail addresses are removed. */
  function Tokens(text: string): seq<string> {
    Words(Remove(Remove(text, Url), Email))
  }

  /** `clean_text`: the kept words, separated by single spaces. */
  function CleanText(text: string): string {
    Join(Tokens(text), " ")
  }

  /** `count_words`, through `CountWordsTokens`: the number of tokens of the
      cleaned text. */
  function CountWords(text: string): nat {
    |Tokens(text)|
  }

  // ---------------------------------------------------------------------------
  // Language prediction

  /** The language identifier, restricted to the four languages: the most
      likely language of a text and the probability it gives it. */
  type Classifier = string -> (Language, real)

  /** `predict_language`: the identifier runs on the cleaned text; its guess
      counts only when its probability is strictly above 0.8. */
  function PredictLanguage(classify: Classifier, text: string): (r: Option<string>)
    ensures r.Some? <==> classify(CleanText(text)).1 > MinLanguageProbability
    ensures r.Some? ==> r.value == classify(CleanText(text)).0.Code()
  {
    var guess := classify(CleanText(text));
    if guess.1 > MinLanguageProbability then Some(guess.0.Code()) else None
  }

  /** A prediction is never the empty string, so Python's truth test on it is
      the same as a test for `None`. */
  predicate Truthy(o: Option<string>) {
    o.Some? && o.value != ""
  }

  // ---------------------------------------------------------------------------
  // Properties

  /** The cleaned text consists of its tokens: splitting it at whitespace
      gives back the words the word pattern found, so `count_words`, the
      length of that split, counts exactly them. */
  lemma CountWordsTokens(text: string)
    ensures Split(CleanText(text)) == Tokens(text)
    ensures CountWords(text) == |Split(CleanText(text))|
  {
    var ws := Tokens(text);
    forall k | 0 <= k < |ws|
      ensures ws[k] != [] && NoSpace(ws[k])
    {
      TokenNoSpace(ws[k]);
    }
    SplitJoin(ws);
  }

  lemma TokenNoSpace(w: string)
    requires Token(w)
    ensures NoSpace(w)
  {
    forall k | 0 <= k < |w|
      ensures !IsSpace(w[k])
    {
      assert IsWordChar(w[k]);
    }
  }

  /** Words separated by single spaces, with no space at either end. */
  predicate Canonical(r: string) {
    (r == [] || (r[0] != ' ' && r[|r| - 1] != ' '))
    && forall k :: 0 <= k < |r| - 1 ==> !(r[k] == ' ' && r[k + 1] == ' ')
  }

  /** `clean_text` leaves no leading, trailing or doubled space, and none of
      its tokens holds a digit. */
  lemma CleanTextShape(text: string)
    ensures Canonical(CleanText(text))
    ensures forall k :: 0 <= k < |Split(CleanText(text))| ==> Token(Split(CleanText(text))[k])
  {
    CountWordsTokens(text);
    JoinCanonical(Tokens(text));
  }

  /** Tokens joined by single spaces form a canonical text that starts with
      the first token's first character and ends with the last token's last. */
  lemma {:induction false} JoinCanonical(ws: seq<string>)
    requires forall k :: 0 <= k < |ws| ==> Token(ws[k])
    ensures Canonical(Join(ws, " "))
    ensures ws != [] ==> Join(ws, " ") != [] && Join(ws, " ")[0] == ws[0][0]
    ensures ws != [] ==>
              Token(ws[|ws| - 1]) && Join(ws, " ")[|Join(ws, " ")| - 1] == ws[|ws| - 1][|ws[|ws| - 1]| - 1]
    decreases |ws|
  {
    if |ws| > 1 {
      var w, r := ws[0], Join(ws[1..], " ");
      JoinCanonical(ws[1..]);
      var j := Join(ws, " ");
      assert j == w + " " + r;
      assert IsWordChar(w[|w| - 1]) && IsWordChar(r[0]);
      forall k | 0 <= k < |j| - 1
        ensures !(j[k] == ' ' && j[k + 1] == ' ')
      {
        if k < |w| {
          assert j[k] == w[k] && IsWordChar(w[k]);
        } else if k == |w| {
          assert j[k + 1] == r[0];
        } else {
          assert j[k] == r[k - |w| - 1] && j[k + 1] == r[k - |w|];
        }
      }
      assert j[0] == w[0] && IsWordChar(w[0]);
      assert j[|j| - 1] == r[|r| - 1];
    } else if |ws| == 1 {
      assert IsWordChar(ws[0][0]) && IsWordChar(ws[0][|ws[0]| - 1]);
      forall k | 0 <= k < |ws[0]| - 1
        ensures !(ws[0][k] == ' ' && ws[0][k + 1] == ' ')
      {
        assert IsWordChar(ws[0][k]);
      }
    }
  }

  /** The word pattern finds, in tokens joined by single spaces, exactly
      those tokens. */
  lemma {:induction false} WordsOfJoin(ws: seq<string>)
    requires forall k :: 0 <= k < |ws| ==> Token(ws[k])
    ensures Words(Join(ws, " ")) == ws
    decreases |ws|
  {
    if |ws| == 1 {
      WordsOfToken(ws[0], "");
      assert ws[0] + "" == ws[0];
    } else if |ws| > 1 {
      var rest := Join(ws[1..], " ");
      assert Join(ws, " ") == ws[0] + (" " + rest);
      WordsOfToken(ws[0], " " + rest);
      assert (" " + rest)[1..] == rest;
      WordsOfJoin(ws[1..]);
      HeadTail(ws);
    }
  }

  /** A token followed by a non-word character (or nothing) is the first word. */
  lemma WordsOfToken(w: string, tail: string)
    requires Token(w)
    requires tail == [] || !IsWordChar(tail[0])
    ensures Words(w + tail) == [w] + Words(tail)
  {
    var s := w + tail;
    RunOfToken(w, tail);
    assert s[..|w|] == w;
    assert s[|w|..] == tail;
  }

  lemma {:induction false} RunOfToken(w: string, tail: string)
    requires forall k :: 0 <= k < |w| ==> IsWordChar(w[k])
    requires tail == [] || !IsWordChar(tail[0])
    ensures Run(w + tail, WordChar) == |w|
    decreases |w|
  {
    if w == [] {
      assert w + tail == tail;
    } else {
      assert (w + tail)[1..] == w[1..] + tail;
      RunOfToken(w[1..], tail);
    }
  }

  /** The prediction depends on the text only through its cleaned form. */
  lemma PredictionOfClean(classify: Classifier, a: string, b: string)
    requires CleanText(a) == CleanText(b)
    ensures PredictLanguage(classify, a) == PredictLanguage(classify, b)
  {
  }

  /** A prediction is one of `nl`, `fr`, `de` and `en`, hence never empty,
      so Python's truth test on it is the test for `None`. */
  lemma PredictionTruthy(classify: Classifier, text: string)
    ensures PredictLanguage(classify, text).Some? ==> PredictLanguage(classify, text).value in Languages
    ensures Truthy(PredictLanguage(classify, text)) <==> PredictLanguage(classify, text).Some?
  {
    var r := PredictLanguage(classify, text);
    if r.Some? {
      var l := classify(CleanText(text)).0;
      assert r.value == l.Code();
      match l
      case Nl =>
      case Fr =>
      case De =>
      case En =>
    }
  }
}
