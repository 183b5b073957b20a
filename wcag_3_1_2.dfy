/** The attributes whose text the reader does not see on the page. */
module HiddenAttributes {
  /** The iteration order of `HIDDEN_ATTRIBUTES`: the four names, in whatever
      order the set yields them. */
  predicate HiddenOrder(order: seq<string>) {
    |order| == 4 && multiset(order) == multiset{"aria-label", "alt", "value", "title"}
  }
}

/** WCAG 3.1.2 (language of parts): a depth-first walk of the body that
    inherits the declared language downwards, checks the hidden attributes of
    every element, and compares each child's declared and detected language,
    reporting once at the parent when all children agree on the same wrong
    pair. Short child texts are folded into their parent's text. */
module Wcag312 {
  import opened HiddenAttributes
  import opened Py
  import opened Dom
  import opened Infractions
  import opened Utils31

  const MinWordsDefault: nat := 5
  const MinWordsHidden: nat := 3

  /** The page and the collaborators the walk consults: the language
      identifier, lxml's `getpath` for an element, and the order in which the
      set of hidden attribute names is iterated. */
  datatype Env = Env(dom: Tree, classify: Classifier, pathOf: nat -> string, hidden: seq<string>)

  /** What `_dfs` hands back to its caller for an element. */
  datatype Reply = Reply(defined: string, detected: Option<string>, text: string)

  /** A reply together with the infractions the call appended. */
  datatype Visit = Visit(reply: Reply, emitted: seq<LanguageInfraction>)

  function Report(path: string, defined: string, detected: string): LanguageInfraction {
    LanguageInfraction("WCAG_3_1_2", path, defined, detected)
  }

  /** `element.get("lang", parent_language)`. */
  function DefinedLanguage(e: Element, parentLang: string): string {
    if "lang" in e.attrs then e.attrs["lang"] else parentLang
  }

  /** The element's own text: missing text is empty, newlines become spaces,
      and the result is stripped. */
  function OwnText(e: Element): string {
    Strip(Replace(e.text.GetOr(""), '\n', ' '))
  }

  /** The detected language of a text: a prediction only from five words on. */
  function Detected(classify: Classifier, text: string): (r: Option<string>)
    ensures r.Some? ==> CountWords(text) >= MinWordsDefault && r == PredictLanguage(classify, text)
  {
    if CountWords(text) >= MinWordsDefault then PredictLanguage(classify, text) else None
  }

  // ---------------------------------------------------------------------------
  // Hidden attributes

  /** The hidden attribute `name` of element `i` is present, has at least
      three words once stripped, and the identifier confidently gives it a
      language other than the defined one. */
  predicate HiddenWrong(env: Env, i: nat, defined: string, name: string)
    requires i < |env.dom|
  {
    var attrs := env.dom[i].attrs;
    name in attrs && CountWords(Strip(attrs[name])) >= MinWordsHidden
    && Truthy(PredictLanguage(env.classify, Strip(attrs[name])))
    && defined != PredictLanguage(env.classify, Strip(attrs[name])).value
  }

  function HiddenReport(env: Env, i: nat, defined: string, name: string): LanguageInfraction
    requires i < |env.dom| && HiddenWrong(env, i, defined, name)
  {
    Report(env.pathOf(i), defined, PredictLanguage(env.classify, Strip(env.dom[i].attrs[name])).value)
  }

  /** The verdict of `_check_hidden_attributes` on the names from index `k`
      of the iteration order on. */
  function HiddenFrom(env: Env, i: nat, defined: string, k: nat): Option<LanguageInfraction>
    requires i < |env.dom| && k <= |env.hidden|
    decreases |env.hidden| - k
  {
    if k == |env.hidden| then None
    else if HiddenWrong(env, i, defined, env.hidden[k]) then Some(HiddenReport(env, i, defined, env.hidden[k]))
    else HiddenFrom(env, i, defined, k + 1)
  }

  function Hidden(env: Env, i: nat, defined: string): Option<LanguageInfraction>
    requires i < |env.dom|
  {
    HiddenFrom(env, i, defined, 0)
  }

  /** `_check_hidden_attributes`: the first hidden attribute, in iteration
      order, that is long enough and detected in another language is
      reported; the others are never looked at. */
  method CheckHiddenAttributes(env: Env, i: nat, defined: string) returns (r: Option<LanguageInfraction>)
    requires i < |env.dom|
    ensures r == Hidden(env, i, defined)
  {
    var attrs := env.dom[i].attrs;
    var k := 0;
    while k < |env.hidden|
      invariant k <= |env.hidden|
      invariant Hidden(env, i, defined) == HiddenFrom(env, i, defined, k)
    {
      var name := env.hidden[k];
      if name in attrs {
        var value := Strip(attrs[name]);
        if CountWords(value) >= MinWordsHidden {
          var detected := PredictLanguage(env.classify, value);
          if Truthy(detected) && defined != detected.value {
            return Some(Report(env.pathOf(i), defined, detected.value));
          }
        }
      }
      k := k + 1;
    }
    return None;
  }

  /** Which names of the iteration order offend, by position. */
  function Offences(env: Env, i: nat, defined: string): (flags: seq<bool>)
    requires i < |env.dom|
    ensures |flags| == |env.hidden|
  {
    seq(|env.hidden|, j requires 0 <= j < |env.hidden| => HiddenWrong(env, i, defined, env.hidden[j]))
  }

  /** The first position from `k` on whose flag is set, or the length when
      there is none. */
  function FirstFrom(flags: seq<bool>, k: nat): (j: nat)
    requires k <= |flags|
    ensures k <= j <= |flags|
    ensures forall l :: k <= l < j ==> !flags[l]
    ensures j < |flags| ==> flags[j]
    decreases |flags| - k
  {
    if k == |flags| || flags[k] then k else FirstFrom(flags, k + 1)
  }

  /** The hidden-attribute verdict is the report of the first offending
      name in iteration order, and there is none when no name offends. */
  lemma {:induction false} HiddenFirst(env: Env, i: nat, defined: string, k: nat)
    requires i < |env.dom| && k <= |env.hidden|
    ensures var j := FirstFrom(Offences(env, i, defined), k);
            HiddenFrom(env, i, defined, k) ==
              if j < |env.hidden| then Some(HiddenReport(env, i, defined, env.hidden[j])) else None
    decreases |env.hidden| - k
  {
    var flags := Offences(env, i, defined);
    if k < |env.hidden| {
      assert flags[k] == HiddenWrong(env, i, defined, env.hidden[k]);
      if !flags[k] {
        HiddenFirst(env, i, defined, k + 1);
      }
    }
  }

  // ---------------------------------------------------------------------------
  // The walk

  /** A child is wrong when a language was detected and it differs from the
      one defined for it. */
  predicate Wrong(r: Reply) {
    Truthy(r.detected) && r.detected.value != r.defined
  }

  function Pairs(rs: seq<Reply>): set<(string, Option<string>)> {
    set k | 0 <= k < |rs| :: (rs[k].defined, rs[k].detected)
  }

  /** `len({(defined, detected) for ...}) == 1`. */
  predicate Uniform(rs: seq<Reply>) {
    |Pairs(rs)| == 1
  }

  /** What the children's replies add after their own infractions: one
      report at the parent when they all share one wrong pair, nothing when
      they share a right one, else one report per wrong child. */
  function Verdict(env: Env, i: nat, cs: seq<nat>, rs: seq<Reply>): seq<LanguageInfraction>
    requires |cs| == |rs| > 0
  {
    if Uniform(rs) then
      (if Wrong(rs[0]) then [Report(env.pathOf(i), rs[0].defined, rs[0].detected.value)] else [])
    else PerChild(env, cs, rs)
  }

  function ChildReport(env: Env, c: nat, r: Reply): LanguageInfraction
    requires Wrong(r)
  {
    Report(env.pathOf(c), r.defined, r.detected.value)
  }

  /** One report per wrong child, at the child's own path, in child order. */
  function PerChild(env: Env, cs: seq<nat>, rs: seq<Reply>): seq<LanguageInfraction>
    requires |cs| == |rs|
  {
    if cs == [] then []
    else
      var n := |cs| - 1;
      PerChild(env, cs[..n], rs[..n]) + (if Wrong(rs[n]) then [ChildReport(env, cs[n], rs[n])] else [])
  }

  /** The child texts folded into the parent's: each short one, preceded by
      a space. */
  function Folded(rs: seq<Reply>): string {
    FoldedBy(CountWords, rs)
  }

  /** The same fold with `count` as the word counter. */
  function FoldedBy(count: string -> nat, rs: seq<Reply>): string {
    if rs == [] then ""
    else
      var n := |rs| - 1;
      FoldedBy(count, rs[..n]) + (if count(rs[n].text) < MinWordsDefault then " " + rs[n].text else "")
  }

  function Replies(vs: seq<Visit>): (rs: seq<Reply>)
    ensures |rs| == |vs| && forall k :: 0 <= k < |vs| ==> rs[k] == vs[k].reply
  {
    seq(|vs|, k requires 0 <= k < |vs| => vs[k].reply)
  }

  function AllEmitted(vs: seq<Visit>): seq<LanguageInfraction> {
    if vs == [] then [] else AllEmitted(vs[..|vs| - 1]) + vs[|vs| - 1].emitted
  }

  /** `_dfs` on element `i` whose parent's defined language is `parentLang`. */
  function Node(env: Env, i: nat, parentLang: string): (v: Visit)
    requires WellFormed(env.dom) && i < |env.dom|
    ensures v.reply.detected.Some? ==>
              CountWords(v.reply.text) >= MinWordsDefault
              && v.reply.detected == PredictLanguage(env.classify, v.reply.text)
    decreases |env.dom| - i, 1
  {
    var e := env.dom[i];
    var defined := DefinedLanguage(e, parentLang);
    var hidden := Hidden(env, i, defined);
    var pre := if hidden.Some? then [hidden.value] else [];
    if e.children == [] then
      var text := OwnText(e);
      Visit(Reply(defined, Detected(env.classify, text), text), pre)
    else
      var vs := Kids(env, e.children, i, defined);
      var rs := Replies(vs);
      var text := OwnText(e) + Folded(rs);
      Visit(Reply(defined, Detected(env.classify, text), text), pre + AllEmitted(vs) + Verdict(env, i, e.children, rs))
  }

  /** `_dfs` on each of the elements `cs`, all below `lo`, in order. */
  function Kids(env: Env, cs: seq<nat>, lo: nat, lang: string): (vs: seq<Visit>)
    requires WellFormed(env.dom) && forall k :: 0 <= k < |cs| ==> lo < cs[k] < |env.dom|
    ensures |vs| == |cs|
    decreases |env.dom| - lo, 0, |cs|
  {
    if cs == [] then []
    else Kids(env, cs[..|cs| - 1], lo, lang) + [Node(env, cs[|cs| - 1], lang)]
  }

  // ---------------------------------------------------------------------------
  // Properties of the walk

  function Pair(r: Reply): (string, Option<string>) {
    (r.defined, r.detected)
  }

  /** The children form one set of pairs exactly when all of them carry the
      first child's pair. */
  lemma UniformSame(rs: seq<Reply>)
    requires rs != []
    ensures Uniform(rs) <==> forall k :: 0 <= k < |rs| ==> Pair(rs[k]) == Pair(rs[0])
  {
    var a := Pair(rs[0]);
    assert a in Pairs(rs);
    if forall k :: 0 <= k < |rs| ==> Pair(rs[k]) == a {
      assert Pairs(rs) == {a};
    } else {
      var k :| 0 <= k < |rs| && Pair(rs[k]) != a;
      assert Pair(rs[k]) in Pairs(rs) - {a};
      assert |Pairs(rs) - {a}| >= 1;
    }
  }

  /** When every child carries the same (defined, detected) pair, one report
      at the parent replaces the children's, if that pair is wrong;
      otherwise each wrong child is reported on its own. */
  lemma VerdictCases(env: Env, i: nat, cs: seq<nat>, rs: seq<Reply>)
    requires |cs| == |rs| > 0
    ensures (forall k :: 0 <= k < |rs| ==> Pair(rs[k]) == Pair(rs[0])) ==>
              Verdict(env, i, cs, rs)
              == if Wrong(rs[0]) then [Report(env.pathOf(i), rs[0].defined, rs[0].detected.value)] else []
    ensures !(forall k :: 0 <= k < |rs| ==> Pair(rs[k]) == Pair(rs[0])) ==>
              Verdict(env, i, cs, rs) == PerChild(env, cs, rs)
  {
    UniformSame(rs);
  }

  /** An only child that is wrong is reported at its parent's path. */
  lemma OnlyChildReportedAtParent(env: Env, i: nat, c: nat, r: Reply)
    requires Wrong(r)
    ensures Verdict(env, i, [c], [r]) == [Report(env.pathOf(i), r.defined, r.detected.value)]
  {
    VerdictCases(env, i, [c], [r]);
  }

  /** The per-child reports are those of the wrong children, each at its
      own path, and no others. */
  lemma {:induction false} PerChildWrong(env: Env, cs: seq<nat>, rs: seq<Reply>)
    requires |cs| == |rs|
    ensures |PerChild(env, cs, rs)| <= |cs|
    ensures forall x :: x in PerChild(env, cs, rs) ==>
              exists k :: 0 <= k < |cs| && Wrong(rs[k]) && x == ChildReport(env, cs[k], rs[k])
    ensures forall k :: 0 <= k < |cs| && Wrong(rs[k]) ==> ChildReport(env, cs[k], rs[k]) in PerChild(env, cs, rs)
  {
    if cs != [] {
      var n := |cs| - 1;
      PerChildWrong(env, cs[..n], rs[..n]);
      var front := PerChild(env, cs[..n], rs[..n]);
      var last := if Wrong(rs[n]) then [ChildReport(env, cs[n], rs[n])] else [];
      assert PerChild(env, cs, rs) == front + last;
      forall x | x in PerChild(env, cs, rs)
        ensures exists k :: 0 <= k < |cs| && Wrong(rs[k]) && x == ChildReport(env, cs[k], rs[k])
      {
        if x in front {
          var k :| 0 <= k < n && Wrong(rs[..n][k]) && x == ChildReport(env, cs[..n][k], rs[..n][k]);
          assert cs[..n][k] == cs[k] && rs[..n][k] == rs[k];
        } else {
          assert x in last;
        }
      }
      forall k | 0 <= k < |cs| && Wrong(rs[k])
        ensures ChildReport(env, cs[k], rs[k]) in PerChild(env, cs, rs)
      {
        if k < n {
          assert cs[..n][k] == cs[k] && rs[..n][k] == rs[k];
        }
      }
    }
  }

  /** Folding is done child by child. */
  lemma {:induction false} FoldedAppend(count: string -> nat, a: seq<Reply>, b: seq<Reply>)
    ensures FoldedBy(count, a + b) == FoldedBy(count, a) + FoldedBy(count, b)
    decreases |b|
  {
    if b == [] {
      assert a + b == a;
    } else {
      var n := |b| - 1;
      assert (a + b)[..|a + b| - 1] == a + b[..n];
      FoldedAppend(count, a, b[..n]);
    }
  }

  /** One more child is folded in after the earlier ones. */
  lemma FoldedSnoc(count: string -> nat, rs: seq<Reply>, j: nat)
    requires j < |rs|
    ensures FoldedBy(count, rs[..j + 1])
      == FoldedBy(count, rs[..j]) + (if count(rs[j].text) < MinWordsDefault then " " + rs[j].text else "")
  {
    assert rs[..j + 1][..j] == rs[..j];
  }

  /** A child text of five words or more is never folded in; a shorter one
      is, after a space, in its place among its siblings. */
  lemma FoldedChild(count: string -> nat, a: seq<Reply>, r: Reply, b: seq<Reply>)
    ensures count(r.text) >= MinWordsDefault ==> FoldedBy(count, a + [r] + b) == FoldedBy(count, a) + FoldedBy(count, b)
    ensures count(r.text) < MinWordsDefault ==>
              FoldedBy(count, a + [r] + b) == FoldedBy(count, a) + " " + r.text + FoldedBy(count, b)
  {
    FoldedAppend(count, a + [r], b);
    FoldedAppend(count, a, [r]);
    var one := if count(r.text) < MinWordsDefault then " " + r.text else "";
    assert FoldedBy(count, [r]) == one by {
      assert [r][..0] == [];
    }
    assert FoldedBy(count, a + [r] + b) == FoldedBy(count, a) + one + FoldedBy(count, b);
    if count(r.text) >= MinWordsDefault {
      assert FoldedBy(count, a) + one == FoldedBy(count, a);
    } else {
      assert FoldedBy(count, a) + one == FoldedBy(count, a) + " " + r.text;
    }
  }

  /** Every report states a language the identifier found that differs from
      the one defined for the element. */
  predicate Genuine(x: LanguageInfraction) {
    x.criterion == "WCAG_3_1_2" && x.predictedLanguage in Languages && x.predictedLanguage != x.htmlLanguage
  }

  predicate AllGenuine(xs: seq<LanguageInfraction>) {
    forall k :: 0 <= k < |xs| ==> Genuine(xs[k])
  }

  /** A reply whose detected language, if any, is one of the four. */
  predicate Detects(r: Reply) {
    r.detected.Some? ==> r.detected.value in Languages
  }

  lemma HiddenGenuine(env: Env, i: nat, defined: string)
    requires i < |env.dom|
    ensures Hidden(env, i, defined).Some? ==> Genuine(Hidden(env, i, defined).value)
  {
    HiddenFirst(env, i, defined, 0);
    var flags := Offences(env, i, defined);
    var j := FirstFrom(flags, 0);
    if j < |env.hidden| {
      assert flags[j];
      var name := env.hidden[j];
      PredictionTruthy(env.classify, Strip(env.dom[i].attrs[name]));
    }
  }

  lemma HiddenAgainst(env: Env, i: nat, defined: string)
    requires i < |env.dom|
    ensures Hidden(env, i, defined).Some? ==> Hidden(env, i, defined).value.htmlLanguage == defined
  {
    HiddenFirst(env, i, defined, 0);
  }

  /** An element's hidden-attribute report comes before anything its subtree
      adds; a leaf without one adds nothing. */
  lemma HiddenReportedFirst(env: Env, i: nat, lang: string)
    requires WellFormed(env.dom) && i < |env.dom|
    ensures var h := Hidden(env, i, DefinedLanguage(env.dom[i], lang));
            h.Some? ==> Node(env, i, lang).emitted != [] && Node(env, i, lang).emitted[0] == h.value
    ensures var h := Hidden(env, i, DefinedLanguage(env.dom[i], lang));
            h.None? && env.dom[i].children == [] ==> Node(env, i, lang).emitted == []
  {
  }

  lemma {:induction false} PerChildGenuine(env: Env, cs: seq<nat>, rs: seq<Reply>)
    requires |cs| == |rs| && forall k :: 0 <= k < |rs| ==> Detects(rs[k])
    ensures AllGenuine(PerChild(env, cs, rs))
  {
    if cs != [] {
      var n := |cs| - 1;
      PerChildGenuine(env, cs[..n], rs[..n]);
      assert Detects(rs[n]);
    }
  }

  lemma VerdictGenuine(env: Env, i: nat, cs: seq<nat>, rs: seq<Reply>)
    requires |cs| == |rs| > 0 && forall k :: 0 <= k < |rs| ==> Detects(rs[k])
    ensures AllGenuine(Verdict(env, i, cs, rs))
  {
    if !Uniform(rs) {
      PerChildGenuine(env, cs, rs);
    } else {
      assert Detects(rs[0]);
    }
  }

  lemma {:induction false} NodeGenuine(env: Env, i: nat, lang: string)
    requires WellFormed(env.dom) && i < |env.dom|
    ensures AllGenuine(Node(env, i, lang).emitted) && Detects(Node(env, i, lang).reply)
    decreases |env.dom| - i, 1
  {
    var e := env.dom[i];
    var defined := DefinedLanguage(e, lang);
    var hidden := Hidden(env, i, defined);
    var pre := if hidden.Some? then [hidden.value] else [];
    assert AllGenuine(pre) by {
      HiddenGenuine(env, i, defined);
    }
    var v := Node(env, i, lang);
    assert Detects(v.reply) by {
      PredictionTruthy(env.classify, v.reply.text);
    }
    if e.children != [] {
      var vs := Kids(env, e.children, i, defined);
      var rs := Replies(vs);
      KidsGenuine(env, e.children, i, defined);
      VerdictGenuine(env, i, e.children, rs);
      AllGenuineAppend(pre, AllEmitted(vs));
      AllGenuineAppend(pre + AllEmitted(vs), Verdict(env, i, e.children, rs));
      assert v.emitted == pre + AllEmitted(vs) + Verdict(env, i, e.children, rs);
    } else {
      assert v.emitted == pre;
    }
  }

  lemma AllGenuineAppend(xs: seq<LanguageInfraction>, ys: seq<LanguageInfraction>)
    requires AllGenuine(xs) && AllGenuine(ys)
    ensures AllGenuine(xs + ys)
  {
  }

  lemma {:induction false} KidsGenuine(env: Env, cs: seq<nat>, lo: nat, lang: string)
    requires WellFormed(env.dom) && forall k :: 0 <= k < |cs| ==> lo < cs[k] < |env.dom|
    ensures AllGenuine(AllEmitted(Kids(env, cs, lo, lang)))
    ensures forall k :: 0 <= k < |cs| ==> Detects(Kids(env, cs, lo, lang)[k].reply)
    decreases |env.dom| - lo, 0, |cs|
  {
    if cs != [] {
      var n := |cs| - 1;
      KidsGenuine(env, cs[..n], lo, lang);
      NodeGenuine(env, cs[n], lang);
      var vs := Kids(env, cs[..n], lo, lang);
      assert Kids(env, cs, lo, lang) == vs + [Node(env, cs[n], lang)];
      assert (vs + [Node(env, cs[n], lang)])[..n] == vs;
    }
  }

  /** No element sets `lang`. */
  predicate NoLang(dom: Tree) {
    forall j :: 0 <= j < |dom| ==> "lang" !in dom[j].attrs
  }

  predicate AllAgainst(xs: seq<LanguageInfraction>, lang: string) {
    forall k :: 0 <= k < |xs| ==> xs[k].htmlLanguage == lang
  }

  /** On a page where no element sets `lang`, every element inherits the
      language it was started with, and every report is made against it. */
  lemma {:induction false} NodeInherits(env: Env, i: nat, lang: string)
    requires WellFormed(env.dom) && i < |env.dom| && NoLang(env.dom)
    ensures Node(env, i, lang).reply.defined == lang
    ensures AllAgainst(Node(env, i, lang).emitted, lang)
    decreases |env.dom| - i, 1
  {
    var e := env.dom[i];
    assert "lang" !in e.attrs;
    assert DefinedLanguage(e, lang) == lang;
    HiddenAgainst(env, i, lang);
    var hidden := Hidden(env, i, lang);
    var pre := if hidden.Some? then [hidden.value] else [];
    assert AllAgainst(pre, lang);
    var v := Node(env, i, lang);
    if e.children != [] {
      var cs := e.children;
      var vs := Kids(env, cs, i, lang);
      KidsInherit(env, cs, i, lang);
      var rs := Replies(vs);
      assert forall k :: 0 <= k < |rs| ==> rs[k].defined == lang;
      VerdictAgainst(env, i, cs, rs, lang);
      assert v.emitted == pre + AllEmitted(vs) + Verdict(env, i, cs, rs);
      AgainstConcat(pre, AllEmitted(vs), Verdict(env, i, cs, rs), lang);
    } else {
      assert v.emitted == pre;
    }
  }

  lemma AgainstConcat(a: seq<LanguageInfraction>, b: seq<LanguageInfraction>, c: seq<LanguageInfraction>, lang: string)
    requires AllAgainst(a, lang) && AllAgainst(b, lang) && AllAgainst(c, lang)
    ensures AllAgainst(a + b + c, lang)
  {
  }

  lemma VerdictAgainst(env: Env, i: nat, cs: seq<nat>, rs: seq<Reply>, lang: string)
    requires |cs| == |rs| > 0 && forall k :: 0 <= k < |rs| ==> rs[k].defined == lang
    ensures AllAgainst(Verdict(env, i, cs, rs), lang)
  {
    if !Uniform(rs) {
      PerChildAgainst(env, cs, rs, lang);
    } else {
      assert rs[0].defined == lang;
    }
  }

  lemma {:induction false} KidsInherit(env: Env, cs: seq<nat>, lo: nat, lang: string)
    requires WellFormed(env.dom) && NoLang(env.dom)
    requires forall k :: 0 <= k < |cs| ==> lo < cs[k] < |env.dom|
    ensures AllAgainst(AllEmitted(Kids(env, cs, lo, lang)), lang)
    ensures AllDefine(Kids(env, cs, lo, lang), lang)
    decreases |env.dom| - lo, 0, |cs|
  {
    if cs != [] {
      var n := |cs| - 1;
      KidsInherit(env, cs[..n], lo, lang);
      NodeInherits(env, cs[n], lang);
      var vs := Kids(env, cs[..n], lo, lang);
      var v := Node(env, cs[n], lang);
      assert Kids(env, cs, lo, lang) == vs + [v];
      assert (vs + [v])[..n] == vs;
      assert AllEmitted(vs + [v]) == AllEmitted(vs) + v.emitted;
      assert AllAgainst(AllEmitted(vs) + v.emitted, lang);
      AllDefineSnoc(vs, v, lang);
    }
  }

  predicate AllDefine(vs: seq<Visit>, lang: string) {
    forall k :: 0 <= k < |vs| ==> vs[k].reply.defined == lang
  }

  lemma AllDefineSnoc(vs: seq<Visit>, v: Visit, lang: string)
    requires AllDefine(vs, lang) && v.reply.defined == lang
    ensures AllDefine(vs + [v], lang)
  {
  }

  lemma {:induction false} PerChildAgainst(env: Env, cs: seq<nat>, rs: seq<Reply>, lang: string)
    requires |cs| == |rs| && forall k :: 0 <= k < |rs| ==> rs[k].defined == lang
    ensures AllAgainst(PerChild(env, cs, rs), lang)
  {
    if cs != [] {
      var n := |cs| - 1;
      PerChildAgainst(env, cs[..n], rs[..n], lang);
    }
  }

  /** The infraction list every call of the walk appends to. */
  class InfractionLog {
    var entries: seq<LanguageInfraction>

    constructor ()
      ensures entries == []
    {
      entries := [];
    }

    method Append(x: LanguageInfraction)
      modifies this
      ensures entries == old(entries) + [x]
    {
      entries := entries + [x];
    }
  }

  /** `_dfs`: appends what element `i` and its subtree contribute and
      returns its defined language, detected language and text. */
  method Dfs(env: Env, log: InfractionLog, i: nat, parentLang: string) returns (reply: Reply)
    requires WellFormed(env.dom) && i < |env.dom|
    modifies log
    ensures reply == Node(env, i, parentLang).reply
    ensures log.entries == old(log.entries) + Node(env, i, parentLang).emitted
    decreases |env.dom| - i, 1
  {
    var e := env.dom[i];
    var defined := DefinedLanguage(e, parentLang);
    var text := OwnText(e);
    var hidden := CheckHiddenAttributes(env, i, defined);
    if hidden.Some? {
      log.Append(hidden.value);
    }
    ghost var pre := if hidden.Some? then [hidden.value] else [];
    assert log.entries == old(log.entries) + pre;
    var cs := e.children;
    if cs != [] {
      ghost var vs := Kids(env, cs, i, defined);
      var rs := VisitChildren(env, log, i, defined);
      ghost var mid := log.entries;
      assert mid == old(log.entries) + pre + AllEmitted(vs);
      ReportChildren(env, log, i, cs, rs);
      assert log.entries == mid + Verdict(env, i, cs, rs);
      text := FoldShortTexts(text, rs);
      SeqAssoc3(old(log.entries), pre, AllEmitted(vs), Verdict(env, i, cs, rs));
    } else {
      assert pre == Node(env, i, parentLang).emitted;
    }
    var detected := if CountWords(text) >= MinWordsDefault then PredictLanguage(env.classify, text) else None;
    reply := Reply(defined, detected, text);
  }

  /** One more child visited: its reply and its infractions come last. */
  lemma KidsStep(env: Env, cs: seq<nat>, lo: nat, lang: string, j: nat)
    requires WellFormed(env.dom) && forall k :: 0 <= k < |cs| ==> lo < cs[k] < |env.dom|
    requires j < |cs|
    ensures Replies(Kids(env, cs[..j + 1], lo, lang))
            == Replies(Kids(env, cs[..j], lo, lang)) + [Node(env, cs[j], lang).reply]
    ensures AllEmitted(Kids(env, cs[..j + 1], lo, lang))
            == AllEmitted(Kids(env, cs[..j], lo, lang)) + Node(env, cs[j], lang).emitted
  {
    assert cs[..j + 1][..j] == cs[..j];
    var vs := Kids(env, cs[..j], lo, lang);
    var v := Node(env, cs[j], lang);
    assert Kids(env, cs[..j + 1], lo, lang) == vs + [v];
    assert (vs + [v])[..|vs|] == vs;
  }

  /** The recursive calls on the children of `i`, in order. */
  method VisitChildren(env: Env, log: InfractionLog, i: nat, lang: string) returns (rs: seq<Reply>)
    requires WellFormed(env.dom) && i < |env.dom|
    modifies log
    ensures rs == Replies(Kids(env, env.dom[i].children, i, lang))
    ensures log.entries == old(log.entries) + AllEmitted(Kids(env, env.dom[i].children, i, lang))
    decreases |env.dom| - i, 0
  {
    var cs := env.dom[i].children;
    rs := [];
    var j := 0;
    while j < |cs|
      invariant j <= |cs|
      invariant rs == Replies(Kids(env, cs[..j], i, lang))
      invariant log.entries == old(log.entries) + AllEmitted(Kids(env, cs[..j], i, lang))
    {
      ghost var before := log.entries;
      var r := Dfs(env, log, cs[j], lang);
      KidsStep(env, cs, i, lang, j);
      SeqAssoc(old(log.entries), AllEmitted(Kids(env, cs[..j], i, lang)), Node(env, cs[j], lang).emitted);
      rs := rs + [r];
      j := j + 1;
    }
    assert cs[..j] == cs;
  }

  /** The comparison of the children's defined and detected languages. */
  method ReportChildren(env: Env, log: InfractionLog, i: nat, cs: seq<nat>, rs: seq<Reply>)
    requires |cs| == |rs| > 0
    modifies log
    ensures log.entries == old(log.entries) + Verdict(env, i, cs, rs)
  {
    if |Pairs(rs)| == 1 {
      if Truthy(rs[0].detected) && rs[0].defined != rs[0].detected.value {
        log.Append(Report(env.pathOf(i), rs[0].defined, rs[0].detected.value));
      }
    } else {
      var j := 0;
      while j < |cs|
        invariant j <= |cs|
        invariant log.entries == old(log.entries) + PerChild(env, cs[..j], rs[..j])
      {
        if Truthy(rs[j].detected) && rs[j].detected.value != rs[j].defined {
          log.Append(Report(env.pathOf(cs[j]), rs[j].defined, rs[j].detected.value));
        }
        assert cs[..j + 1][..j] == cs[..j] && rs[..j + 1][..j] == rs[..j];
        j := j + 1;
      }
      assert cs[..j] == cs && rs[..j] == rs;
    }
  }

  /** The loop that appends the short child texts to the element's text. */
  method FoldShortTexts(own: string, rs: seq<Reply>) returns (text: string)
    ensures text == own + Folded(rs)
  {
    text := own;
    var j := 0;
    while j < |rs|
      invariant j <= |rs|
      invariant text == own + FoldedBy(CountWords, rs[..j])
    {
      FoldedSnoc(CountWords, rs, j);
      if CountWords(rs[j].text) < MinWordsDefault {
        text := text + " " + rs[j].text;
      }
      j := j + 1;
    }
    assert rs[..j] == rs;
  }

  /** `detect_wcag_3_1_2_infractions`: the walk from the body with the page's
      language; the body's own reply is dropped. */
  method DetectWcag312(env: Env, body: nat, htmlLanguage: string) returns (infractions: seq<LanguageInfraction>)
    requires WellFormed(env.dom) && body < |env.dom| && HiddenOrder(env.hidden)
    ensures infractions == Node(env, body, htmlLanguage).emitted
    ensures forall k :: 0 <= k < |infractions| ==> Genuine(infractions[k])
    ensures NoLang(env.dom) ==> forall k :: 0 <= k < |infractions| ==> infractions[k].htmlLanguage == htmlLanguage
  {
    NodeGenuine(env, body, htmlLanguage);
    if NoLang(env.dom) {
      NodeInherits(env, body, htmlLanguage);
    }
    var log := new InfractionLog();
    var _ := Dfs(env, log, body, htmlLanguage);
    infractions := log.entries;
  }
}
